/**
 * What Voronoi.removeBeachSection (src/Voronoi.js) does to the beachline, stated on
 * plain values: which arcs collapse at a vertex together with the one whose circle
 * event fired, what the arcs keep once their events are gone, and the start points
 * the collapse gives to the edges between the arcs that disappear.
 */
module Removal {
  import opened Wrappers
  import opened Sites
  import opened Epsilon
  import opened RBNodes
  import opened RBTrees
  import opened Edges
  import opened SweepOrder
  import opened SweepState

  /**
   * The arc `a` has a pending circle event whose bottom is at the vertex (`x`, `y`)
   * within the tolerance: it collapses at the same vertex.
   */
  predicate Close(arcs: map<nat, Arc>, events: map<nat, CircleEvent>, a: nat, x: real, y: real)
  {
    a in arcs && arcs[a].circle.Some? && arcs[a].circle.value in events
    && EqualWithEpsilon(x - events[arcs[a].circle.value].x, 0.0)
    && EqualWithEpsilon(y - events[arcs[a].circle.value].ycenter, 0.0)
  }

  /**
   * Looking left from position `i` of the beachline `b`: the position `j` of the first
   * arc that does not collapse at (`x`, `y`); every arc after it up to `i` does.  It is
   * -1 when every arc up to `i` collapses (the source then reads past the first arc).
   */
  function LeftStop(b: seq<nat>, arcs: map<nat, Arc>, events: map<nat, CircleEvent>, i: int, x: real, y: real): (j: int)
    requires -1 <= i < |b|
    ensures -1 <= j <= i
    decreases i + 1
  {
    if i < 0 then -1
    else if Close(arcs, events, b[i], x, y) then LeftStop(b, arcs, events, i - 1, x, y)
    else i
  }

  /**
   * Looking right from position `i`: the position `m` of the first arc that does not
   * collapse at (`x`, `y`); every arc from `i` up to it does.  It is |b| when every arc
   * from `i` on collapses (the source then reads past the last arc).
   */
  function RightStop(b: seq<nat>, arcs: map<nat, Arc>, events: map<nat, CircleEvent>, i: int, x: real, y: real): (m: int)
    requires 0 <= i <= |b|
    ensures i <= m <= |b|
    decreases |b| - i
  {
    if i == |b| then |b|
    else if Close(arcs, events, b[i], x, y) then RightStop(b, arcs, events, i + 1, x, y)
    else i
  }

  /** The arcs at positions `lo` to `hi` of `b` have the same payload in both maps. */
  predicate AgreeOn(b: seq<nat>, lo: int, hi: int, a1: map<nat, Arc>, a2: map<nat, Arc>)
    requires 0 <= lo && hi < |b|
  {
    forall t :: lo <= t <= hi ==> (b[t] in a1 <==> b[t] in a2) && (b[t] in a1 ==> a1[b[t]] == a2[b[t]])
  }

  /** Every arc the look left passes collapses, and the one it stops at (if any) does not. */
  lemma {:induction false} LeftStopRun(b: seq<nat>, arcs: map<nat, Arc>, events: map<nat, CircleEvent>, i: int, x: real, y: real)
    requires -1 <= i < |b|
    ensures var j := LeftStop(b, arcs, events, i, x, y);
      (forall t {:trigger Close(arcs, events, b[t], x, y)} :: j < t <= i ==> Close(arcs, events, b[t], x, y))
      && (j >= 0 ==> !Close(arcs, events, b[j], x, y))
    decreases i + 1
  {
    if i >= 0 && Close(arcs, events, b[i], x, y) {
      LeftStopRun(b, arcs, events, i - 1, x, y);
    }
  }

  /** Every arc the look right passes collapses, and the one it stops at (if any) does not. */
  lemma {:induction false} RightStopRun(b: seq<nat>, arcs: map<nat, Arc>, events: map<nat, CircleEvent>, i: int, x: real, y: real)
    requires 0 <= i <= |b|
    ensures var m := RightStop(b, arcs, events, i, x, y);
      (forall t {:trigger Close(arcs, events, b[t], x, y)} :: i <= t < m ==> Close(arcs, events, b[t], x, y))
      && (m < |b| ==> !Close(arcs, events, b[m], x, y))
    decreases |b| - i
  {
    if i < |b| && Close(arcs, events, b[i], x, y) {
      RightStopRun(b, arcs, events, i + 1, x, y);
    }
  }

  /** The look left stops at `j` when every arc after `j` up to `i` collapses and the one at `j` (if any) does not. */
  lemma {:induction false} LeftStopAt(b: seq<nat>, arcs: map<nat, Arc>, events: map<nat, CircleEvent>, i: int, j: int, x: real, y: real)
    requires -1 <= j <= i < |b|
    requires forall t {:trigger Close(arcs, events, b[t], x, y)} :: j < t <= i ==> Close(arcs, events, b[t], x, y)
    requires j >= 0 ==> !Close(arcs, events, b[j], x, y)
    ensures LeftStop(b, arcs, events, i, x, y) == j
    decreases i - j
  {
    if j < i {
      assert Close(arcs, events, b[i], x, y);
      LeftStopAt(b, arcs, events, i - 1, j, x, y);
    }
  }

  /** The look right stops at `m` when every arc from `i` up to `m` collapses and the one at `m` (if any) does not. */
  lemma {:induction false} RightStopAt(b: seq<nat>, arcs: map<nat, Arc>, events: map<nat, CircleEvent>, i: int, m: int, x: real, y: real)
    requires 0 <= i <= m <= |b|
    requires forall t {:trigger Close(arcs, events, b[t], x, y)} :: i <= t < m ==> Close(arcs, events, b[t], x, y)
    requires m < |b| ==> !Close(arcs, events, b[m], x, y)
    ensures RightStop(b, arcs, events, i, x, y) == m
    decreases m - i
  {
    if i < m {
      assert Close(arcs, events, b[i], x, y);
      RightStopAt(b, arcs, events, i + 1, m, x, y);
    }
  }

  /** What the look left has changed so far: the beachline, the arcs, the arc pool and the disappearing transitions. */
  datatype Scan = Scan(beach: seq<nat>, arcs: map<nat, Arc>, junk: seq<nat>, gone: seq<nat>)

  /**
   * The state once the look left of the arc at position `k` of `b` has passed the arcs
   * from `i` to `k`: they have left the beachline for the pool `junk0` in the order met,
   * have lost their events, and stand before `d` in the disappearing transitions.
   */
  function LeftScan(b: seq<nat>, k: nat, i: nat, arcs0: map<nat, Arc>, junk0: seq<nat>, d: seq<nat>): (r: Scan)
    requires i <= k < |b|
    ensures |r.beach| == |b| - 1 - (k - i) && |r.junk| == |junk0| + (k - i) && |r.gone| == |d| + (k - i)
  {
    Scan(b[..i] + b[k + 1..], Uncircled(arcs0, b[i..k]), junk0 + Reversed(b[i..k]), b[i..k] + d)
  }

  /** An arc that collapses, with the payload it had at the start, lets the look left go on past it. */
  lemma LeftStopStep(b: seq<nat>, arcs0: map<nat, Arc>, arcs: map<nat, Arc>, events: map<nat, CircleEvent>, i: nat, x: real, y: real)
    requires 0 < i <= |b| && b[i - 1] in arcs0 && b[i - 1] in arcs && arcs[b[i - 1]] == arcs0[b[i - 1]]
    requires Close(arcs, events, b[i - 1], x, y)
    ensures LeftStop(b, arcs0, events, i - 1, x, y) == LeftStop(b, arcs0, events, i - 2, x, y)
  {
  }

  /** The look left stops at an arc that does not collapse, or past the first arc. */
  lemma LeftStopHere(b: seq<nat>, arcs0: map<nat, Arc>, arcs: map<nat, Arc>, events: map<nat, CircleEvent>, i: nat, x: real, y: real)
    requires i <= |b| && (i > 0 ==> b[i - 1] in arcs0 && b[i - 1] in arcs && arcs[b[i - 1]] == arcs0[b[i - 1]])
    requires i > 0 ==> !Close(arcs, events, b[i - 1], x, y)
    ensures LeftStop(b, arcs0, events, i - 1, x, y) == i - 1
  {
  }

  /**
   * One step of the look left: detaching the arc right before position `i` (taking it off
   * the beachline, clearing its event, pooling it) extends the scan by that arc, and the
   * arc before it keeps its payload.
   */
  lemma LeftScanStep(b: seq<nat>, k: nat, i: nat, arcs0: map<nat, Arc>, junk0: seq<nat>, d: seq<nat>, s: Scan,
                     beach: seq<nat>, arcs: map<nat, Arc>, junk: seq<nat>, gone: seq<nat>)
    requires Distinct(b) && 0 < i <= k < |b| && b[i - 1] in arcs0 && s == LeftScan(b, k, i, arcs0, junk0, d)
    requires beach == Without(s.beach, b[i - 1]) && junk == s.junk + [b[i - 1]] && gone == [b[i - 1]] + s.gone
    requires b[i - 1] in s.arcs && arcs == s.arcs[b[i - 1] := s.arcs[b[i - 1]].(circle := None)]
    requires i > 1 ==> b[i - 2] in s.arcs
    ensures Scan(beach, arcs, junk, gone) == LeftScan(b, k, i - 1, arcs0, junk0, d)
    ensures i > 1 ==> b[i - 2] in arcs0 && b[i - 2] in arcs && arcs[b[i - 2]] == arcs0[b[i - 2]]
  {
    LeftStep(b, i - 1, k, arcs0, s.arcs, junk0);
    Prepended(b, i, k, d);
    if i > 1 {
      assert b[i - 2] != b[i - 1] && b[i - 2] !in b[i..k];
      assert s.arcs[b[i - 2]] == arcs0[b[i - 2]];
    }
  }

  /**
   * The state once the look right from position `k + 1` of `b`, with the arcs before
   * position `q` left on the beachline, has passed the arcs from `k + 1` up to `i`: they
   * have left the beachline for the pool `junk0` in the order met, have lost their events,
   * and stand after `d` in the disappearing transitions.
   */
  function RightScan(b: seq<nat>, q: nat, k: nat, i: nat, arcs0: map<nat, Arc>, junk0: seq<nat>, d: seq<nat>): (r: Scan)
    requires q <= k < i <= |b|
    ensures |r.beach| == q + |b| - i && |r.junk| == |junk0| + (i - k - 1) && |r.gone| == |d| + (i - k - 1)
  {
    Scan(b[..q] + b[i..], Uncircled(arcs0, b[k + 1..i]), junk0 + b[k + 1..i], d + b[k + 1..i])
  }

  /** An arc that collapses, with the payload it had at the start, lets the look right go on past it. */
  lemma RightStopStep(b: seq<nat>, arcs0: map<nat, Arc>, arcs: map<nat, Arc>, events: map<nat, CircleEvent>, i: nat, i': nat, x: real, y: real)
    requires i < |b| && i' == i + 1 && b[i] in arcs0 && b[i] in arcs && arcs[b[i]] == arcs0[b[i]]
    requires Close(arcs, events, b[i], x, y)
    ensures RightStop(b, arcs0, events, i, x, y) == RightStop(b, arcs0, events, i', x, y)
  {
  }

  /** The look right stops at an arc that does not collapse, or past the last arc. */
  lemma RightStopHere(b: seq<nat>, arcs0: map<nat, Arc>, arcs: map<nat, Arc>, events: map<nat, CircleEvent>, i: nat, x: real, y: real)
    requires i <= |b| && (i < |b| ==> b[i] in arcs0 && b[i] in arcs && arcs[b[i]] == arcs0[b[i]])
    requires i < |b| ==> !Close(arcs, events, b[i], x, y)
    ensures RightStop(b, arcs0, events, i, x, y) == i
  {
  }

  /**
   * One step of the look right: detaching the arc at position `i` (taking it off the
   * beachline, clearing its event, pooling it) extends the scan by that arc, and the arc
   * after it keeps its payload.
   */
  lemma RightScanStep(b: seq<nat>, q: nat, k: nat, i: nat, i': nat, arcs0: map<nat, Arc>, junk0: seq<nat>, d: seq<nat>, s: Scan,
                      beach: seq<nat>, arcs: map<nat, Arc>, junk: seq<nat>, gone: seq<nat>)
    requires Distinct(b) && q <= k < i < |b| && i' == i + 1 && b[i] in arcs0 && s == RightScan(b, q, k, i, arcs0, junk0, d)
    requires beach == Without(s.beach, b[i]) && junk == s.junk + [b[i]] && gone == s.gone + [b[i]]
    requires b[i] in s.arcs && arcs == s.arcs[b[i] := s.arcs[b[i]].(circle := None)]
    requires i' < |b| ==> b[i'] in s.arcs
    ensures Scan(beach, arcs, junk, gone) == RightScan(b, q, k, i', arcs0, junk0, d)
    ensures i' < |b| ==> b[i'] in arcs0 && b[i'] in arcs && arcs[b[i']] == arcs0[b[i']]
  {
    RightStep(b, q, k, i, arcs0, s.arcs);
    var t := RightScan(b, q, k, i', arcs0, junk0, d);
    var run := b[k + 1..i];
    assert beach == t.beach && arcs == t.arcs;
    assert junk == t.junk && gone == t.gone by {
      assert b[k + 1..i + 1] == run + [b[i]];
      assert junk0 + run + [b[i]] == junk0 + (run + [b[i]]);
      assert d + run + [b[i]] == d + (run + [b[i]]);
    }
    if i + 1 < |b| {
      assert b[i + 1] != b[i] && b[i + 1] !in b[k + 1..i];
      assert s.arcs[b[i + 1]] == arcs0[b[i + 1]];
    }
  }

  /** Where the look left stops depends only on the arcs it looks at. */
  lemma {:induction false} LeftStopAgree(b: seq<nat>, a1: map<nat, Arc>, a2: map<nat, Arc>, events: map<nat, CircleEvent>, i: int, x: real, y: real)
    requires -1 <= i < |b| && AgreeOn(b, 0, i, a1, a2)
    ensures LeftStop(b, a1, events, i, x, y) == LeftStop(b, a2, events, i, x, y)
    decreases i + 1
  {
    if 0 <= i {
      assert Close(a1, events, b[i], x, y) == Close(a2, events, b[i], x, y);
      LeftStopAgree(b, a1, a2, events, i - 1, x, y);
    }
  }

  /** Where the look right stops depends only on the arcs it looks at. */
  lemma {:induction false} RightStopAgree(b: seq<nat>, a1: map<nat, Arc>, a2: map<nat, Arc>, events: map<nat, CircleEvent>, i: int, x: real, y: real)
    requires 0 <= i <= |b| && AgreeOn(b, i, |b| - 1, a1, a2)
    ensures RightStop(b, a1, events, i, x, y) == RightStop(b, a2, events, i, x, y)
    decreases |b| - i
  {
    if i < |b| {
      assert Close(a1, events, b[i], x, y) == Close(a2, events, b[i], x, y);
      RightStopAgree(b, a1, a2, events, i + 1, x, y);
    }
  }

  /** The arcs after detachCircleEvent on each arc of `s`: no pending event, all else kept. */
  function Uncircled(arcs: map<nat, Arc>, s: seq<nat>): (r: map<nat, Arc>)
    ensures r.Keys == arcs.Keys
    ensures forall a {:trigger r[a]} :: a in arcs ==> r[a] == if a in s then arcs[a].(circle := None) else arcs[a]
  {
    map a | a in arcs :: if a in s then arcs[a].(circle := None) else arcs[a]
  }

  /** Clearing the events of `s` and then of `t` clears those of `s + t`; clearing one arc's event is `Uncircled` of it alone. */
  lemma UncircledTwice(arcs: map<nat, Arc>, s: seq<nat>, t: seq<nat>)
    ensures Uncircled(Uncircled(arcs, s), t) == Uncircled(arcs, s + t)
  {
  }

  /** The site and the edge of each arc of `s`, in order: what setStartPoint and createEdge read of the disappearing transitions. */
  function Transitions(arcs: map<nat, Arc>, s: seq<nat>): (tr: seq<(Site, Option<nat>)>)
    requires forall a :: a in s ==> a in arcs
    ensures |tr| == |s|
    ensures forall i :: 0 <= i < |s| ==> tr[i] == (arcs[s[i]].site, arcs[s[i]].edge)
  {
    seq(|s|, i requires 0 <= i < |s| => (arcs[s[i]].site, arcs[s[i]].edge))
  }

  /** Clearing pending events leaves the sites and edges the transitions read. */
  lemma TransitionsUncircled(arcs: map<nat, Arc>, t: seq<nat>, s: seq<nat>)
    requires forall a :: a in s ==> a in arcs
    ensures Transitions(Uncircled(arcs, t), s) == Transitions(arcs, s)
  {
  }

  /** Every transition but the first has an edge, and the edge exists. */
  predicate Edged(edgeAt: map<nat, EdgeState<nat>>, tr: seq<(Site, Option<nat>)>)
  {
    forall i :: 1 <= i < |tr| ==> tr[i].1.Some? && tr[i].1.value in edgeAt
  }

  /**
   * The loop of removeBeachSection over the disappearing transitions: left to right,
   * the edge of each transition but the first gets `v` as start point, seen from the
   * site before it to its own site.  Afterwards every one of those edges ends at `v`,
   * and no other edge changes.
   */
  function Starts(edgeAt: map<nat, EdgeState<nat>>, tr: seq<(Site, Option<nat>)>, v: nat): (r: map<nat, EdgeState<nat>>)
    requires Edged(edgeAt, tr)
    ensures r.Keys == edgeAt.Keys
    ensures forall i :: 1 <= i < |tr| ==> HasEndpoint(r[tr[i].1.value], v)
    ensures forall e :: e in edgeAt && (forall i :: 1 <= i < |tr| ==> tr[i].1 != Some(e)) ==> r[e] == edgeAt[e]
    decreases |tr|
  {
    if |tr| < 2 then edgeAt
    else
      var n := |tr| - 1;
      var before := Starts(edgeAt, tr[..n], v);
      var re := tr[n].1.value;
      before[re := StartPoint(before[re], Some(tr[n - 1].0), Some(tr[n].0), v)]
  }

  /** One more step of the loop: the edge `e` of transition `i` gets its start, and `Starts` covers one transition more. */
  lemma StartsNext(edgeAt0: map<nat, EdgeState<nat>>, tr: seq<(Site, Option<nat>)>, i: nat, i': nat, v: nat,
                   cur: map<nat, EdgeState<nat>>, e: nat)
    requires 1 <= i < |tr| && i' == i + 1 && Edged(edgeAt0, tr[..i]) && cur == Starts(edgeAt0, tr[..i], v)
    requires tr[i].1 == Some(e) && e in cur
    ensures Edged(edgeAt0, tr[..i']) && Starts(edgeAt0, tr[..i'], v) == cur[e := StartPoint(cur[e], Some(tr[i - 1].0), Some(tr[i].0), v)]
  {
    assert e in edgeAt0;
    EdgedNext(edgeAt0, tr, i, i');
    assert tr[..i'][..i] == tr[..i];
  }

  /** Edged one transition further, when that transition has an existing edge. */
  lemma EdgedNext(edgeAt0: map<nat, EdgeState<nat>>, tr: seq<(Site, Option<nat>)>, i: nat, i': nat)
    requires 1 <= i < |tr| && i' == i + 1 && Edged(edgeAt0, tr[..i])
    requires tr[i].1.Some? && tr[i].1.value in edgeAt0
    ensures Edged(edgeAt0, tr[..i'])
  {
    var t := tr[..i'];
    forall j | 1 <= j < i' ensures t[j].1.Some? && t[j].1.value in edgeAt0 {
      if j < i {
        assert t[j] == tr[..i][j];
      }
    }
  }

  /** The loop stops at transition `i` when it has no edge, or one that does not exist: not all of `tr` is edged. */
  lemma StartsFail(edgeAt0: map<nat, EdgeState<nat>>, tr: seq<(Site, Option<nat>)>, i: nat, v: nat, cur: map<nat, EdgeState<nat>>)
    requires 1 <= i < |tr| && Edged(edgeAt0, tr[..i]) && cur == Starts(edgeAt0, tr[..i], v)
    requires tr[i].1.None? || tr[i].1.value !in cur
    ensures !Edged(edgeAt0, tr)
  {
  }

  /** One step of the look left: the arc at `j` is not among those already passed, and passing it too extends the run by one. */
  lemma LeftStep(b: seq<nat>, j: nat, k: nat, arcs0: map<nat, Arc>, arcs: map<nat, Arc>, junk0: seq<nat>)
    requires Distinct(b) && j < k < |b| && b[j] in arcs0 && arcs == Uncircled(arcs0, b[j + 1..k])
    ensures b[j] !in b[j + 1..k] && b[j] in arcs && arcs[b[j]] == arcs0[b[j]]
    ensures Without(b[..j + 1] + b[k + 1..], b[j]) == b[..j] + b[k + 1..]
    ensures junk0 + Reversed(b[j..k]) == junk0 + Reversed(b[j + 1..k]) + [b[j]]
    ensures Uncircled(arcs0, b[j..k]) == arcs[b[j] := arcs[b[j]].(circle := None)]
  {
    assert b[j..k] == [b[j]] + b[j + 1..k];
    assert b[j..k][1..] == b[j + 1..k];
    assert b[..j + 1] == b[..j] + [b[j]];
    DistinctSkip(b, j + 1, k + 1);
    assert b[..j + 1] + b[k + 1..] == b[..j] + [b[j]] + b[k + 1..];
    MembersWithout(b[..j], b[j], b[k + 1..]);
  }

  /**
   * The arc at position `m` of `b`, met by the look right once the arcs from `k + 1` up to
   * `m` have lost their events, still has its own payload; taking it off the beachline
   * that keeps the arcs before `q` leaves the ones after it, and clearing its event too
   * extends the cleared stretch by one.
   */
  lemma RightStep(b: seq<nat>, q: nat, k: nat, m: nat, arcs0: map<nat, Arc>, arcs: map<nat, Arc>)
    requires Distinct(b) && q <= k < m < |b| && b[m] in arcs0 && arcs == Uncircled(arcs0, b[k + 1..m])
    ensures b[m] !in b[k + 1..m] && b[m] in arcs && arcs[b[m]] == arcs0[b[m]]
    ensures Without(b[..q] + b[m..], b[m]) == b[..q] + b[m + 1..]
    ensures b[k + 1..m + 1] == b[k + 1..m] + [b[m]]
    ensures Uncircled(arcs0, b[k + 1..m + 1]) == arcs[b[m] := arcs[b[m]].(circle := None)]
  {
    assert b[k + 1..m + 1] == b[k + 1..m] + [b[m]];
    assert b[m..] == [b[m]] + b[m + 1..];
    DistinctSkip(b, q, m);
    assert b[..q] + b[m..] == b[..q] + [b[m]] + b[m + 1..];
    MembersWithout(b[..q], b[m], b[m + 1..]);
  }

  /** Putting the element before a slice in front of it extends the slice by one. */
  lemma Prepended(b: seq<nat>, i: nat, k: nat, d: seq<nat>)
    requires 0 < i <= k <= |b|
    ensures [b[i - 1]] + (b[i..k] + d) == b[i - 1..k] + d
  {
    assert b[i - 1..k] == [b[i - 1]] + b[i..k];
  }

  /** Leaving out a stretch of a sequence without repetitions leaves one without repetitions. */
  lemma DistinctSkip(b: seq<nat>, lo: nat, hi: nat)
    requires Distinct(b) && lo <= hi <= |b|
    ensures Distinct(b[..lo] + b[hi..])
  {
    var t := b[..lo] + b[hi..];
    forall p, q | 0 <= p < q < |t|
      ensures t[p] != t[q]
    {
      var p', q' := if p < lo then p else p + hi - lo, if q < lo then q else q + hi - lo;
      assert t[p] == b[p'] && t[q] == b[q'];
    }
  }

  /**
   * After the collapsing arc at `k` has left the beachline with its event cleared, the
   * look left still stops where it would have on the original arcs `arcs0`.
   */
  lemma LeftAfterDetach(b: seq<nat>, arcs0: map<nat, Arc>, arcs: map<nat, Arc>, events: map<nat, CircleEvent>, k: nat, x: real, y: real)
    requires Distinct(b) && k < |b| && b[k] in arcs0 && arcs == arcs0[b[k] := arcs0[b[k]].(circle := None)]
    ensures LeftStop(b, arcs, events, k - 1, x, y) == LeftStop(b, arcs0, events, k - 1, x, y)
  {
    if k > 0 {
      assert AgreeOn(b, 0, k - 1, arcs, arcs0) by {
        forall t | 0 <= t <= k - 1 ensures b[t] != b[k] {
        }
      }
      LeftStopAgree(b, arcs, arcs0, events, k - 1, x, y);
    }
  }

  /**
   * Once the look left has cleared the events of the arcs from `j` to `k` (the collapsing
   * one included), the look right still stops where it would have on `arcs0`.
   */
  lemma RightAfterLeft(b: seq<nat>, arcs0: map<nat, Arc>, events: map<nat, CircleEvent>, j: nat, k: nat, x: real, y: real)
    requires Distinct(b) && j <= k < |b|
    ensures RightStop(b, Uncircled(arcs0, b[j..k + 1]), events, k + 1, x, y) == RightStop(b, arcs0, events, k + 1, x, y)
  {
    var arcs := Uncircled(arcs0, b[j..k + 1]);
    if k + 1 < |b| {
      assert AgreeOn(b, k + 1, |b| - 1, arcs, arcs0) by {
        forall t | k + 1 <= t <= |b| - 1 ensures b[t] !in b[j..k + 1] {
        }
      }
      RightStopAgree(b, arcs, arcs0, events, k + 1, x, y);
    }
  }

  /** Clearing the event of the arc at `k`, then those from `j` to `k - 1`, clears those from `j` to `k`. */
  lemma LeftJoined(b: seq<nat>, arcs0: map<nat, Arc>, j: nat, k: nat)
    requires j <= k < |b| && b[k] in arcs0
    ensures Uncircled(arcs0[b[k] := arcs0[b[k]].(circle := None)], b[j..k]) == Uncircled(arcs0, b[j..k + 1])
    ensures b[j..k] + [b[k]] == b[j..k + 1]
  {
    assert b[j..k + 1] == b[j..k] + [b[k]];
  }

  /** Clearing the events from `j` to `k`, then from `k + 1` to `m`, clears those from `j` to `m`. */
  lemma RightJoined(b: seq<nat>, arcs0: map<nat, Arc>, j: nat, k: nat, m: nat)
    requires j <= k < m < |b|
    ensures Uncircled(Uncircled(arcs0, b[j..k + 1]), b[k + 1..m + 1]) == Uncircled(arcs0, b[j..m + 1])
    ensures b[j..k + 1] + b[k + 1..m + 1] == b[j..m + 1]
  {
    assert b[j..m + 1] == b[j..k + 1] + b[k + 1..m + 1];
    UncircledTwice(arcs0, b[j..k + 1], b[k + 1..m + 1]);
  }

  /**
   * Once the look right has stopped at `m`: the disappearing transitions are the arcs from
   * `j` to `m`, the first and the last of them are distinct and still on the beachline
   * without events, and the transitions read the same sites and edges as on `arcs0`.
   */
  lemma SpreadReady(b: seq<nat>, arcs0: map<nat, Arc>, j: nat, m: nat, d: seq<nat>)
    requires Distinct(b) && j < m < |b| && (forall a :: a in b ==> a in arcs0) && d == b[j..m + 1]
    ensures 2 <= |d| && d[0] == b[j] && d[|d| - 1] == b[m] && b[j] != b[m]
    ensures b[j] in b[..j + 1] + b[m..] && b[m] in b[..j + 1] + b[m..]
    ensures var arcs := Uncircled(arcs0, b[j..m + 1]);
      (forall a :: a in d ==> a in arcs) && arcs[b[j]].circle.None? && arcs[b[m]].circle.None?
      && Transitions(arcs, d) == Transitions(arcs0, d)
  {
    assert (b[..j + 1] + b[m..])[j] == b[j];
    assert (b[..j + 1] + b[m..])[j + 1] == b[m];
    TransitionsUncircled(arcs0, b[j..m + 1], d);
  }

  /** The arcs, the listed edges and the edge payloads: what the end of removeBeachSection changes. */
  datatype Joined = Joined(arcs: map<nat, Arc>, edges: seq<nat>, edgeAt: map<nat, EdgeState<nat>>)

  /**
   * The end of removeBeachSection when the disappearing transitions are the arcs from `j`
   * to `m` of `b`: all of them have lost their events, their edges start at the vertex
   * `v`, and the new edge `e` between the sites at `j` and `m`, ending at `v`, is listed
   * and becomes the edge of the arc at `m`; the arcs at `j` and `m` then have the events
   * `cl` and `cr`.
   */
  function Rejoined(b: seq<nat>, j: nat, m: nat, arcs0: map<nat, Arc>, edges0: seq<nat>, edgeAt0: map<nat, EdgeState<nat>>,
                    v: nat, e: nat, cl: Option<nat>, cr: Option<nat>): Joined
    requires j < m < |b| && (forall a :: a in b ==> a in arcs0) && Edged(edgeAt0, Transitions(arcs0, b[j..m + 1]))
  {
    var u := Uncircled(arcs0, b[j..m + 1]);
    Joined(u[b[j] := u[b[j]].(circle := cl)][b[m] := u[b[m]].(circle := cr, edge := Some(e))], edges0 + [e],
           Starts(edgeAt0, Transitions(arcs0, b[j..m + 1]), v)[e := NewEdgeState(arcs0[b[j]].site, arcs0[b[m]].site, None, Some(v))])
  }

  /**
   * What removeBeachSection reads of the diagram before it changes anything: the circle
   * events, the edges and their payloads, and which sites have cells (`site.voronoiId`
   * by site id, and the number of cells).
   */
  datatype Before = Before(events: map<nat, CircleEvent>, edges: seq<nat>, edgeAt: map<nat, EdgeState<nat>>, ids: map<nat, nat>, cellCount: nat)

  /** The site `s` has a cell, by `ids`, among `n` cells: createEdge finds it. */
  predicate Celled(ids: map<nat, nat>, n: nat, s: Site)
  {
    s.id in ids && ids[s.id] < n
  }

  /** What removeBeachSection changes: the beachline, the arc pool, the arcs, the listed edges and the edge payloads. */
  datatype After = After(beach: seq<nat>, junk: seq<nat>, arcs: map<nat, Arc>, edges: seq<nat>, edgeAt: map<nat, EdgeState<nat>>)

  /**
   * removeBeachSection on the beachline `b` for the arc at position `k`, whose circle
   * event has its centre at (`x`, `y`), with the vertex `v` created there, from the arcs
   * `arcs0` and the state `s0`, the arc pool being `junk0` once the arc itself is in it:
   * the look left stops at `j` and the look right at `m`, where an arc does not collapse
   * at the same vertex; `ok` says the source does not throw; and then the state `after`
   * has the arcs strictly between `j` and `m` off the beachline and in the pool (those
   * left of `k` nearest first, then those right of it), and the start points, the new
   * edge `e` and the events of `Rejoined`.
   */
  predicate Removed(b: seq<nat>, k: nat, arcs0: map<nat, Arc>, s0: Before, x: real, y: real, v: nat, junk0: seq<nat>,
                    ok: bool, e: nat, j: int, m: int, after: After)
    requires k < |b| && (forall a :: a in b ==> a in arcs0)
  {
    j == LeftStop(b, arcs0, s0.events, k - 1, x, y) && (j >= 0 ==> m == RightStop(b, arcs0, s0.events, k + 1, x, y))
    && (ok <==> (j >= 0 && m < |b| && Edged(s0.edgeAt, Transitions(arcs0, b[j..m + 1]))
                 && Celled(s0.ids, s0.cellCount, arcs0[b[j]].site) && Celled(s0.ids, s0.cellCount, arcs0[b[m]].site)))
    && (ok ==> (after.beach == b[..j + 1] + b[m..] && after.junk == junk0 + Reversed(b[j + 1..k]) + b[k + 1..m]
                && b[j] in after.arcs && b[m] in after.arcs
                && Joined(after.arcs, after.edges, after.edgeAt)
                   == Rejoined(b, j, m, arcs0, s0.edges, s0.edgeAt, v, e, after.arcs[b[j]].circle, after.arcs[b[m]].circle)))
  }

  /**
   * Removed from its two steps: the look left stops at `j` (`left` when it finds an arc,
   * the pool then `junk1`), and, when it does, the look right and the new edge.
   */
  lemma RemovedSteps(b: seq<nat>, k: nat, arcs0: map<nat, Arc>, s0: Before, x: real, y: real, v: nat, junk0: seq<nat>,
                     left: bool, junk1: seq<nat>, ok: bool, e: nat, j: int, m: int, after: After)
    requires k < |b| && (forall a :: a in b ==> a in arcs0)
    requires j == LeftStop(b, arcs0, s0.events, k - 1, x, y) && (left <==> j >= 0) && (!left ==> !ok)
    requires left ==> junk1 == junk0 + Reversed(b[j + 1..k]) && m == RightStop(b, arcs0, s0.events, k + 1, x, y)
    requires left ==> (ok <==> (m < |b| && Edged(s0.edgeAt, Transitions(arcs0, b[j..m + 1]))
                                && Celled(s0.ids, s0.cellCount, arcs0[b[j]].site) && Celled(s0.ids, s0.cellCount, arcs0[b[m]].site)))
    requires left && ok ==> (after.beach == b[..j + 1] + b[m..] && after.junk == junk1 + b[k + 1..m]
                             && b[j] in after.arcs && b[m] in after.arcs
                             && Joined(after.arcs, after.edges, after.edgeAt)
                                == Rejoined(b, j, m, arcs0, s0.edges, s0.edgeAt, v, e, after.arcs[b[j]].circle, after.arcs[b[m]].circle))
    ensures Removed(b, k, arcs0, s0, x, y, v, junk0, ok, e, j, m, after)
  {
  }
}
