/**
 * The bookkeeping of src/Voronoi.js's sweep, stated on plain values: the beachline and
 * the circle-event queue as sequences of ids, the arc and event payloads, the pools of
 * arcs and events and the counts of ids handed out.  Each change the sweep makes to
 * them is shown here to keep that bookkeeping intact.
 */
module SweepState {
  import opened Wrappers
  import opened Sites
  import opened RBNodes
  import opened RBTrees
  import opened SweepOrder
  import opened CircleQueue

  /** A beach section (src/BeachSection.js): its site, the edge on its left, and its pending circle event. */
  datatype Arc = Arc(site: Site, edge: Option<nat>, circle: Option<nat>)

  /** The first element of `q`, if any. */
  function Head(q: seq<nat>): (h: Option<nat>)
    ensures h.Some? <==> q != []
    ensures h.Some? ==> h.value == q[0]
  {
    if q == [] then None else Some(q[0])
  }

  /** `s` without its last element: what `pop` leaves. */
  function Popped<T>(s: seq<T>): (r: seq<T>)
    requires s != []
    ensures s == r + [s[|s| - 1]]
  {
    s[..|s| - 1]
  }

  /**
   * `id` is what a pool hands out: the last of `junk` when there is one (`junk'` is then
   * the rest), else the fresh id `count` (and `count'` is one more).
   */
  predicate Took(junk: seq<nat>, count: nat, id: nat, junk': seq<nat>, count': nat)
  {
    if junk != [] then id == junk[|junk| - 1] && junk' == Popped(junk) && count' == count
    else id == count && junk' == [] && count' == count + 1
  }

  lemma DistinctAppend(a: seq<nat>, b: seq<nat>)
    requires Distinct(a) && Distinct(b) && forall x :: x in a ==> x !in b
    ensures Distinct(a + b)
  {
    var s := a + b;
    forall i, j | 0 <= i < j < |s| ensures s[i] != s[j] {
      if j < |a| {
        assert s[i] == a[i] && s[j] == a[j];
      } else if i >= |a| {
        assert s[i] == b[i - |a|] && s[j] == b[j - |a|];
      } else {
        assert s[i] in a && s[j] == b[j - |a|];
      }
    }
  }

  lemma DistinctPopped(s: seq<nat>)
    requires Distinct(s) && s != []
    ensures Distinct(Popped(s)) && s[|s| - 1] !in Popped(s)
  {
    var r := Popped(s);
    forall i, j | 0 <= i < j < |r| ensures r[i] != r[j] {
      assert r[i] == s[i] && r[j] == s[j];
    }
    forall x | x in r ensures x != s[|s| - 1] {
      var i :| 0 <= i < |r| && r[i] == x;
      assert s[i] == x;
    }
  }

  /**
   * The pool `junk` with the count `count` never hands out an id of `used`: pooled ids
   * are distinct, not in use and below the count, and the ids in use are below it too.
   */
  predicate Fresh(junk: seq<nat>, count: nat, used: seq<nat>)
  {
    Distinct(junk)
    && (forall x {:trigger x in junk} :: x in junk ==> x < count && x !in used)
    && (forall x {:trigger x in used} :: x in used ==> x < count)
  }

  /** The id a fresh pool hands out is not in use and not pooled any more, and the pool stays fresh once it is in use. */
  lemma TookFresh(junk: seq<nat>, count: nat, used: seq<nat>, id: nat, junk': seq<nat>, count': nat)
    requires Fresh(junk, count, used) && Took(junk, count, id, junk', count')
    ensures id !in used && id !in junk' && id < count' && Fresh(junk', count', used + [id])
  {
    if junk != [] {
      DistinctPopped(junk);
      assert id in junk;
      forall x | x in junk' ensures x in junk {
      }
    }
  }

  /**
   * The bookkeeping of the sweep, on the beachline `b` and the queue `q`: the queue is in
   * sweep order and `first` is its head; pooled arcs and events are off their trees,
   * distinct and without a pending event; and an arc and its circle event point at each
   * other.
   */
  predicate Sweeping(b: seq<nat>, q: seq<nat>, arcs: map<nat, Arc>, events: map<nat, CircleEvent>, first: Option<nat>,
                     arcJunk: seq<nat>, eventJunk: seq<nat>, arcCount: nat, eventCount: nat)
  {
    QueueSorted(q, events) && first == Head(q)
    && ArcPool(b, arcs, arcJunk, arcCount) && EventPool(q, eventJunk, eventCount) && Linked(b, q, arcs, events)
  }

  /** Pooled arcs are distinct, off the beachline, and have no pending event; all ids are below the count. */
  predicate ArcPool(b: seq<nat>, arcs: map<nat, Arc>, junk: seq<nat>, count: nat)
  {
    Distinct(junk)
    && (forall a {:trigger a in b} :: a in b ==> a in arcs && a < count)
    && (forall a {:trigger a in junk} :: a in junk ==> a !in b && a in arcs && arcs[a].circle.None? && a < count)
  }

  /** Pooled events are distinct and off the queue; all ids are below the count. */
  predicate EventPool(q: seq<nat>, junk: seq<nat>, count: nat)
  {
    Distinct(junk)
    && (forall e {:trigger e in q} :: e in q ==> e < count)
    && (forall e {:trigger e in junk} :: e in junk ==> e !in q && e < count)
  }

  /** Every queued event belongs to an arc of the beachline that points back at it, and the other way round. */
  predicate Linked(b: seq<nat>, q: seq<nat>, arcs: map<nat, Arc>, events: map<nat, CircleEvent>)
  {
    (forall e {:trigger e in q} :: e in q ==> e in events && events[e].arc in b && events[e].arc in arcs && arcs[events[e].arc].circle == Some(e))
    && (forall a {:trigger a in b} :: a in b && a in arcs && arcs[a].circle.Some? ==>
          arcs[a].circle.value in q && arcs[a].circle.value in events && events[arcs[a].circle.value].arc == a)
  }

  /** Emptying both trees, once the queue is empty, and pooling the arcs that were on the beachline keeps the bookkeeping. */
  lemma SweepingReset(b: seq<nat>, arcs: map<nat, Arc>, events: map<nat, CircleEvent>, arcJunk: seq<nat>, eventJunk: seq<nat>, arcCount: nat, eventCount: nat)
    requires Distinct(b) && Sweeping(b, [], arcs, events, None, arcJunk, eventJunk, arcCount, eventCount)
    ensures Sweeping([], [], arcs, events, None, arcJunk + b, eventJunk, arcCount, eventCount)
  {
    DistinctAppend(arcJunk, b);
  }

  /** Taking the last pooled arc for a new beach section keeps the bookkeeping; that arc is off the beachline. */
  lemma SweepingPopArc(b: seq<nat>, q: seq<nat>, arcs: map<nat, Arc>, events: map<nat, CircleEvent>, first: Option<nat>,
                       arcJunk: seq<nat>, eventJunk: seq<nat>, arcCount: nat, eventCount: nat, site: Site)
    requires Sweeping(b, q, arcs, events, first, arcJunk, eventJunk, arcCount, eventCount) && arcJunk != []
    ensures var a := arcJunk[|arcJunk| - 1];
      a !in b && a in arcs && arcs[a].circle.None? && a < arcCount &&
      Sweeping(b, q, arcs[a := arcs[a].(site := site)], events, first, Popped(arcJunk), eventJunk, arcCount, eventCount)
  {
    DistinctPopped(arcJunk);
    assert arcJunk[|arcJunk| - 1] in arcJunk;
    forall x | x in Popped(arcJunk) ensures x in arcJunk {
    }
  }

  /** Allocating a new arc keeps the bookkeeping; the new id is on no list. */
  lemma SweepingNewArc(b: seq<nat>, q: seq<nat>, arcs: map<nat, Arc>, events: map<nat, CircleEvent>, first: Option<nat>,
                       arcJunk: seq<nat>, eventJunk: seq<nat>, arcCount: nat, eventCount: nat, site: Site)
    requires Sweeping(b, q, arcs, events, first, arcJunk, eventJunk, arcCount, eventCount)
    ensures arcCount !in b && arcCount !in arcJunk
    ensures Sweeping(b, q, arcs[arcCount := Arc(site, None, None)], events, first, arcJunk, eventJunk, arcCount + 1, eventCount)
  {
  }

  /** Without one of its elements, a distinct sequence holds exactly the others. */
  lemma MembersWithout(qb: seq<nat>, e: nat, qa: seq<nat>)
    requires Distinct(qb + [e] + qa)
    ensures Distinct(qb + qa)
    ensures forall x :: x in qb + qa <==> x in qb + [e] + qa && x != e
    ensures Without(qb + [e] + qa, e) == qb + qa
  {
    var q := qb + [e] + qa;
    DistinctRemove(qb, e, qa);
    assert q[|qb|] == e;
    DistinctIndex(q, |qb|);
    assert q[..|qb|] == qb && q[|qb| + 1..] == qa;
    forall x | x in qb + qa ensures x != e {
      var i :| 0 <= i < |qb + qa| && (qb + qa)[i] == x;
      if i < |qb| {
        assert q[i] == x;
      } else {
        assert q[i + 1] == x;
      }
    }
  }

  /** `SweepingDetach` with the queue split around the event. */
  lemma SweepingDetachSplit(b: seq<nat>, qb: seq<nat>, e: nat, qa: seq<nat>, arcs: map<nat, Arc>, events: map<nat, CircleEvent>, first: Option<nat>,
                       arcJunk: seq<nat>, eventJunk: seq<nat>, arcCount: nat, eventCount: nat, arc: nat)
    requires Sweeping(b, qb + [e] + qa, arcs, events, first, arcJunk, eventJunk, arcCount, eventCount) && Distinct(qb + [e] + qa)
    requires arc in b && arc in arcs && arcs[arc].circle == Some(e)
    ensures Sweeping(b, qb + qa, arcs[arc := arcs[arc].(circle := None)], events, Head(qb + qa), arcJunk, eventJunk + [e], arcCount, eventCount)
  {
    var q, q' := qb + [e] + qa, qb + qa;
    var arcs' := arcs[arc := arcs[arc].(circle := None)];
    MembersWithout(qb, e, qa);
    QueueRemove(qb, e, qa, events);
    assert e in q;
    DistinctAppend(eventJunk, [e]);
    assert EventPool(q', eventJunk + [e], eventCount);
    assert ArcPool(b, arcs', arcJunk, arcCount);
    assert Linked(b, q', arcs', events) by {
      forall x | x in q' ensures events[x].arc in arcs' && arcs'[events[x].arc].circle == Some(x) {
        assert x in q && x != e;
      }
    }
  }

  /**
   * detachCircleEvent on an arc of the beachline with a pending event `e`: the event
   * leaves the queue for the pool, the arc forgets it, and the head of what is left is first.
   */
  lemma SweepingDetach(b: seq<nat>, q: seq<nat>, e: nat, arcs: map<nat, Arc>, events: map<nat, CircleEvent>, first: Option<nat>,
                       arcJunk: seq<nat>, eventJunk: seq<nat>, arcCount: nat, eventCount: nat, arc: nat)
    requires Sweeping(b, q, arcs, events, first, arcJunk, eventJunk, arcCount, eventCount) && Distinct(q)
    requires arc in b && arc in arcs && arcs[arc].circle == Some(e)
    ensures e in q
    ensures Sweeping(b, Without(q, e), arcs[arc := arcs[arc].(circle := None)], events, Head(Without(q, e)), arcJunk, eventJunk + [e], arcCount, eventCount)
  {
    var k := IndexOf(q, e);
    assert q == q[..k] + [e] + q[k + 1..];
    SweepingDetachSplit(b, q[..k], e, q[k + 1..], arcs, events, first, arcJunk, eventJunk, arcCount, eventCount, arc);
  }

  /**
   * attachCircleEvent: a new event `id` for `arc`, placed after the events strictly before
   * it (`bq`) and before the others (`aq`); it is first exactly when `bq` is empty.
   */
  lemma SweepingAttach(b: seq<nat>, bq: seq<nat>, aq: seq<nat>, arcs: map<nat, Arc>, events: map<nat, CircleEvent>, first: Option<nat>,
                       arcJunk: seq<nat>, eventJunk: seq<nat>, arcCount: nat, eventCount: nat,
                       arc: nat, id: nat, c: CircleEvent, eventJunk': seq<nat>, eventCount': nat)
    requires Sweeping(b, bq + aq, arcs, events, first, arcJunk, eventJunk, arcCount, eventCount) && Distinct(bq + aq)
    requires arc in b && arc in arcs && arcs[arc].circle.None? && c.arc == arc
    requires forall e :: e in bq ==> !NotAfter(c, events[e])
    requires forall e :: e in aq ==> NotAfter(c, events[e])
    requires id !in bq + aq && id < eventCount' && forall e :: e in bq + aq ==> e < eventCount'
    requires Distinct(eventJunk') && forall e :: e in eventJunk' ==> e !in bq + aq && e != id && e < eventCount'
    ensures var q' := bq + [id] + aq;
      Sweeping(b, q', arcs[arc := arcs[arc].(circle := Some(id))], events[id := c], Head(q'), arcJunk, eventJunk', arcCount, eventCount')
  {
    var q, q' := bq + aq, bq + [id] + aq;
    var ev := events[id := c];
    QueueUntouched(q, events, id, c);
    QueueInsert(bq, aq, id, ev);
    forall e | e in q' ensures e == id || e in q {
    }
  }

  /** Inserting `x` after `node` adds exactly `x` to the members. */
  lemma InsertAfterMembers(s: seq<nat>, node: Option<nat>, x: nat)
    requires node.Some? ==> node.value in s
    ensures forall y :: y in InsertAfter(s, node, x) <==> y in s || y == x
  {
    var k := if node.Some? then IndexOf(s, node.value) + 1 else 0;
    assert InsertAfter(s, node, x) == s[..k] + [x] + s[k..];
    assert s == s[..k] + s[k..];
  }

  /**
   * Linking an arc `x` into the beachline after `node`, as addBeachSection does with a
   * section just taken from the pool or allocated, keeps the bookkeeping.
   */
  lemma SweepingInsertArc(b: seq<nat>, q: seq<nat>, arcs: map<nat, Arc>, events: map<nat, CircleEvent>, first: Option<nat>,
                          arcJunk: seq<nat>, eventJunk: seq<nat>, arcCount: nat, eventCount: nat, node: Option<nat>, x: nat)
    requires Sweeping(b, q, arcs, events, first, arcJunk, eventJunk, arcCount, eventCount)
    requires node.Some? ==> node.value in b
    requires x !in b && x !in arcJunk && x in arcs && arcs[x].circle.None? && x < arcCount
    ensures Sweeping(InsertAfter(b, node, x), q, arcs, events, first, arcJunk, eventJunk, arcCount, eventCount)
  {
    InsertAfterMembers(b, node, x);
  }

  /** `SweepingRemoveArc` with the beachline split around the arc. */
  lemma SweepingRemoveArcSplit(bb: seq<nat>, x: nat, ba: seq<nat>, q: seq<nat>, arcs: map<nat, Arc>, events: map<nat, CircleEvent>, first: Option<nat>,
                          arcJunk: seq<nat>, eventJunk: seq<nat>, arcCount: nat, eventCount: nat)
    requires Sweeping(bb + [x] + ba, q, arcs, events, first, arcJunk, eventJunk, arcCount, eventCount) && Distinct(bb + [x] + ba)
    requires x in arcs && arcs[x].circle.None?
    ensures Sweeping(bb + ba, q, arcs, events, first, arcJunk + [x], eventJunk, arcCount, eventCount)
  {
    var b, b' := bb + [x] + ba, bb + ba;
    MembersWithout(bb, x, ba);
    assert x in b;
    forall a | a in arcJunk ensures a != x {
    }
    DistinctAppend(arcJunk, [x]);
    assert Linked(b', q, arcs, events) by {
      forall e | e in q ensures events[e].arc in b' {
        assert events[e].arc in b && events[e].arc != x;
      }
    }
  }

  /** Setting the edge of an arc leaves the bookkeeping alone. */
  lemma SweepingEdge(b: seq<nat>, q: seq<nat>, arcs: map<nat, Arc>, events: map<nat, CircleEvent>, first: Option<nat>,
                     arcJunk: seq<nat>, eventJunk: seq<nat>, arcCount: nat, eventCount: nat, a: nat, edge: Option<nat>)
    requires Sweeping(b, q, arcs, events, first, arcJunk, eventJunk, arcCount, eventCount) && a in arcs
    ensures Sweeping(b, q, arcs[a := arcs[a].(edge := edge)], events, first, arcJunk, eventJunk, arcCount, eventCount)
  {
  }

  /**
   * attachCircleEvent's whole change to the bookkeeping: the event id `id` handed out by
   * the event pool, its payload `c`, its link from `arc`, and its place after `pred`, the
   * last of the events strictly before it, which is its rank.
   */
  lemma SweepingEnqueue(b: seq<nat>, q: seq<nat>, arcs: map<nat, Arc>, events: map<nat, CircleEvent>, first: Option<nat>,
                        arcJunk: seq<nat>, eventJunk: seq<nat>, arcCount: nat, eventCount: nat,
                        arc: nat, c: CircleEvent, id: nat, eventJunk': seq<nat>, eventCount': nat,
                        pred: Option<nat>, bq: seq<nat>, aq: seq<nat>)
    requires Sweeping(b, q, arcs, events, first, arcJunk, eventJunk, arcCount, eventCount) && Distinct(q)
    requires arc in b && arc in arcs && arcs[arc].circle.None? && c.arc == arc
    requires Took(eventJunk, eventCount, id, eventJunk', eventCount')
    requires q == bq + aq && pred == Last(bq)
    requires forall e :: e in bq ==> !NotAfter(c, events[e])
    requires forall e :: e in aq ==> NotAfter(c, events[e])
    ensures id !in q && (pred.Some? ==> pred.value in q)
    ensures var k := Rank(q, events, c); InsertAfter(q, pred, id) == q[..k] + [id] + q[k..]
    ensures var q' := InsertAfter(q, pred, id);
      Sweeping(b, q', arcs[arc := arcs[arc].(circle := Some(id))], events[id := c],
               if pred.None? then Some(id) else first, arcJunk, eventJunk', arcCount, eventCount')
  {
    if eventJunk != [] {
      assert id in eventJunk;
      DistinctPopped(eventJunk);
      forall x | x in eventJunk' ensures x in eventJunk {
        var i :| 0 <= i < |eventJunk'| && eventJunk'[i] == x;
        assert eventJunk[i] == x;
      }
    }
    SearchRank(bq, aq, id, events, c);
    InsertAfterLast(bq, aq, id);
    forall e | e in bq + aq ensures e < eventCount' {
      assert e in q;
    }
    assert id !in q;
    SweepingAttach(b, bq, aq, arcs, events, first, arcJunk, eventJunk, arcCount, eventCount, arc, id, c, eventJunk', eventCount');
    if pred.Some? {
      assert (bq + [id] + aq)[0] == q[0];
    }
  }

  /** detachBeachSection, once the arc's event is gone: the arc leaves the beachline for the pool. */
  lemma SweepingRemoveArc(b: seq<nat>, x: nat, q: seq<nat>, arcs: map<nat, Arc>, events: map<nat, CircleEvent>, first: Option<nat>,
                          arcJunk: seq<nat>, eventJunk: seq<nat>, arcCount: nat, eventCount: nat)
    requires Sweeping(b, q, arcs, events, first, arcJunk, eventJunk, arcCount, eventCount) && Distinct(b)
    requires x in b && x in arcs && arcs[x].circle.None?
    ensures Sweeping(Without(b, x), q, arcs, events, first, arcJunk + [x], eventJunk, arcCount, eventCount)
  {
    var k := IndexOf(b, x);
    assert b == b[..k] + [x] + b[k + 1..];
    SweepingRemoveArcSplit(b[..k], x, b[k + 1..], q, arcs, events, first, arcJunk, eventJunk, arcCount, eventCount);
  }
}
