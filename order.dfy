/**
 * The order in which src/Voronoi.js sweeps: sites and circle events are handled by
 * increasing y, then increasing x.  Circle events wait in a queue (an RB tree kept in
 * that order); sites are sorted once, by a comparator that puts them in decreasing
 * order so that `pop` yields the next one, and consecutive duplicates are skipped.
 */
module SweepOrder {
  import opened Wrappers
  import opened Sites

  /** A circle event (src/CircleEvent.js): the arc that will collapse, its site, the bottom of the circle and its centre's y. */
  datatype CircleEvent = CircleEvent(arc: nat, site: Site, x: real, y: real, ycenter: real)

  /** `a` is not after `b` in the queue: by y, then by x, ties allowed. */
  predicate NotAfter(a: CircleEvent, b: CircleEvent)
  {
    a.y < b.y || (a.y == b.y && a.x <= b.x)
  }

  /** `NotAfter` is a total preorder. */
  lemma NotAfterTotal(a: CircleEvent, b: CircleEvent, c: CircleEvent)
    ensures NotAfter(a, a)
    ensures NotAfter(a, b) || NotAfter(b, a)
    ensures NotAfter(a, b) && NotAfter(b, c) ==> NotAfter(a, c)
  {
  }

  /** The queue `q` of event ids is in sweep order under the payloads `ev`. */
  predicate QueueSorted(q: seq<nat>, ev: map<nat, CircleEvent>)
  {
    (forall e :: e in q ==> e in ev)
    && forall i, j :: 0 <= i < j < |q| ==> NotAfter(ev[q[i]], ev[q[j]])
  }

  /**
   * Placing `x` after every event strictly before it and before every event it is not
   * after (where attachCircleEvent's search puts it) keeps the queue sorted.
   */
  lemma QueueInsert(b: seq<nat>, a: seq<nat>, x: nat, ev: map<nat, CircleEvent>)
    requires QueueSorted(b + a, ev) && x in ev
    requires forall e :: e in b ==> !NotAfter(ev[x], ev[e])
    requires forall e :: e in a ==> NotAfter(ev[x], ev[e])
    ensures QueueSorted(b + [x] + a, ev)
  {
    var s, t := b + a, b + [x] + a;
    forall i, j | 0 <= i < j < |t| ensures NotAfter(ev[t[i]], ev[t[j]]) {
      if j < |b| {
        assert t[i] == s[i] && t[j] == s[j];
      } else if j == |b| {
        assert t[i] in b;
      } else if i == |b| {
        assert t[j] in a;
      } else if i < |b| {
        assert t[i] == s[i] && t[j] == s[j - 1];
      } else {
        assert t[i] == s[i - 1] && t[j] == s[j - 1];
      }
    }
  }

  /** Removing an event keeps the rest in order. */
  lemma QueueRemove(b: seq<nat>, x: nat, a: seq<nat>, ev: map<nat, CircleEvent>)
    requires QueueSorted(b + [x] + a, ev)
    ensures QueueSorted(b + a, ev)
  {
    var s, t := b + [x] + a, b + a;
    forall i, j | 0 <= i < j < |t| ensures NotAfter(ev[t[i]], ev[t[j]]) {
      var i' := if i < |b| then i else i + 1;
      var j' := if j < |b| then j else j + 1;
      assert t[i] == s[i'] && t[j] == s[j'];
    }
  }

  /** Changing the payload of an event that is not queued leaves the queue's order alone. */
  lemma QueueUntouched(q: seq<nat>, ev: map<nat, CircleEvent>, x: nat, c: CircleEvent)
    requires QueueSorted(q, ev) && x !in q
    ensures QueueSorted(q, ev[x := c])
  {
  }

  /** The first queued event is not after any other. */
  lemma QueueHead(q: seq<nat>, ev: map<nat, CircleEvent>)
    requires QueueSorted(q, ev) && |q| > 0
    ensures forall e :: e in q ==> NotAfter(ev[q[0]], ev[e])
  {
    forall e | e in q ensures NotAfter(ev[q[0]], ev[e]) {
      var j :| 0 <= j < |q| && q[j] == e;
      NotAfterTotal(ev[q[0]], ev[e], ev[e]);
    }
  }

  /**
   * Where a new event `c` belongs in the queue `q`: the length of the prefix of events
   * strictly before it, so that `c` goes before every event it is not after.
   */
  function Rank(q: seq<nat>, ev: map<nat, CircleEvent>, c: CircleEvent): (k: nat)
    requires forall e :: e in q ==> e in ev
    ensures k <= |q|
    ensures forall i :: 0 <= i < k ==> !NotAfter(c, ev[q[i]])
    ensures k < |q| ==> NotAfter(c, ev[q[k]])
  {
    if q == [] || NotAfter(c, ev[q[0]]) then 0 else 1 + Rank(q[1..], ev, c)
  }

  /**
   * Any split of the queue into events strictly before `c` followed by events `c` is
   * not after is the split at `Rank`.
   */
  lemma RankSplit(b: seq<nat>, a: seq<nat>, ev: map<nat, CircleEvent>, c: CircleEvent)
    requires forall e :: e in b + a ==> e in ev
    requires forall e :: e in b ==> !NotAfter(c, ev[e])
    requires forall e :: e in a ==> NotAfter(c, ev[e])
    ensures Rank(b + a, ev, c) == |b|
  {
    var q := b + a;
    assert forall i :: 0 <= i < |b| ==> q[i] in b;
    if |b| < |q| {
      assert q[|b|] in a;
    }
  }

  /**
   * In a sorted queue laid out as `b + l + [n] + r + a` (a subtree `l [n] r` between the
   * rest), `n` is not after anything in `r` and `a`, and nothing in `b` and `l` is after `n`.
   */
  lemma SortedAround(b: seq<nat>, l: seq<nat>, n: nat, r: seq<nat>, a: seq<nat>, ev: map<nat, CircleEvent>)
    requires QueueSorted(b + (l + [n] + r) + a, ev)
    ensures forall e :: e in r + a ==> NotAfter(ev[n], ev[e])
    ensures forall e :: e in b + l ==> NotAfter(ev[e], ev[n])
  {
    var q := b + (l + [n] + r) + a;
    var k := |b| + |l|;
    assert q[k] == n;
    forall e | e in r + a ensures NotAfter(ev[n], ev[e]) {
      var j :| 0 <= j < |r + a| && (r + a)[j] == e;
      assert q[k + 1 + j] == e;
    }
    forall e | e in b + l ensures NotAfter(ev[e], ev[n]) {
      var j :| 0 <= j < |b + l| && (b + l)[j] == e;
      assert q[j] == e;
    }
  }

  // ---------------------------------------------------------------------------
  // Sites

  /** The sort key of compute: `a` sorts before `b` when the comparator `b.y - a.y`, then `b.x - a.x`, is negative. */
  predicate SortsBefore(a: Site, b: Site)
  {
    b.y - a.y < 0.0 || (b.y - a.y == 0.0 && b.x - a.x < 0.0)
  }

  /** `a` is strictly earlier than `b` in the sweep: smaller y, or the same y and smaller x. */
  predicate SiteEarlier(a: Site, b: Site)
  {
    a.y < b.y || (a.y == b.y && a.x < b.x)
  }

  /** The comparator of compute sorts by decreasing sweep order. */
  lemma SortsBeforeIsLater(a: Site, b: Site)
    ensures SortsBefore(a, b) <==> SiteEarlier(b, a)
  {
  }

  /** Sorted by the comparator: no site sorts before one that comes earlier. */
  predicate SortedDescending(s: seq<Site>)
  {
    forall i, j :: 0 <= i < j < |s| ==> !SortsBefore(s[j], s[i])
  }

  /** `x` inserted into a comparator-sorted list after every site that does not sort after it (stable). */
  function InsertSite(x: Site, s: seq<Site>): (r: seq<Site>)
    requires SortedDescending(s)
    ensures SortedDescending(r)
    ensures multiset(r) == multiset(s) + multiset{x}
  {
    if s == [] then [x]
    else if SortsBefore(x, s[0]) then
      assert forall g :: g in multiset(s) ==> !SortsBefore(g, x) by {
        forall g | g in multiset(s) ensures !SortsBefore(g, x) {
          var j :| 0 <= j < |s| && s[j] == g;
          assert !SortsBefore(s[j], s[0]) || j == 0;
        }
      }
      SiteCons(x, s);
      [x] + s
    else
      var rest := InsertSite(x, s[1..]);
      assert s == [s[0]] + s[1..];
      assert forall g :: g in multiset(rest) ==> !SortsBefore(g, s[0]) by {
        forall g | g in multiset(rest) ensures !SortsBefore(g, s[0]) {
          assert g in multiset(s[1..]) || g == x;
          if g != x {
            var j :| 0 <= j < |s[1..]| && s[1..][j] == g;
            assert s[j + 1] == g;
          }
        }
      }
      SiteCons(s[0], rest);
      [s[0]] + rest
  }

  /** A site that no element of a sorted list sorts before can head it. */
  lemma SiteCons(x: Site, s: seq<Site>)
    requires SortedDescending(s) && forall g :: g in multiset(s) ==> !SortsBefore(g, x)
    ensures SortedDescending([x] + s)
  {
    forall i, j | 0 <= i < j < |[x] + s| ensures !SortsBefore(([x] + s)[j], ([x] + s)[i]) {
      if i == 0 {
        assert ([x] + s)[j] == s[j - 1];
        assert s[j - 1] in multiset(s);
      } else {
        assert ([x] + s)[j] == s[j - 1] && ([x] + s)[i] == s[i - 1];
      }
    }
  }

  /**
   * siteEvents.sort(comparator): the sites, sorted by decreasing sweep order.  The sort is
   * stable, as Array.prototype.sort is: each site is inserted after the ones before it
   * that it does not sort before.
   */
  function SortSites(s: seq<Site>): (r: seq<Site>)
    ensures SortedDescending(r)
    ensures multiset(r) == multiset(s)
  {
    if s == [] then []
    else
      var n := |s| - 1;
      assert s == s[..n] + [s[n]];
      InsertSite(s[n], SortSites(s[..n]))
  }

  /** The sites of `s` at (`x`, `y`), in the order of `s`. */
  function AtPlace(s: seq<Site>, x: real, y: real): (r: seq<Site>)
    ensures |r| <= |s|
    ensures forall k :: 0 <= k < |r| ==> r[k] in s && r[k].x == x && r[k].y == y
  {
    if s == [] then []
    else (if s[0].x == x && s[0].y == y then [s[0]] else []) + AtPlace(s[1..], x, y)
  }

  /** Picking the sites at one place distributes over concatenation. */
  lemma {:induction false} AtPlaceAppend(a: seq<Site>, b: seq<Site>, x: real, y: real)
    ensures AtPlace(a + b, x, y) == AtPlace(a, x, y) + AtPlace(b, x, y)
    decreases |a|
  {
    if a != [] {
      assert (a + b)[0] == a[0] && (a + b)[1..] == a[1..] + b;
      AtPlaceAppend(a[1..], b, x, y);
    } else {
      assert a + b == b;
    }
  }

  /** `InsertSite` puts `x` after every site at its place: the sites at each place keep their order, `x` last at its own. */
  lemma {:induction false} InsertSiteAtPlace(x: Site, t: seq<Site>, px: real, py: real)
    requires SortedDescending(t)
    ensures AtPlace(InsertSite(x, t), px, py) == AtPlace(t, px, py) + (if x.x == px && x.y == py then [x] else [])
    decreases |t|
  {
    if t == [] {
    } else if SortsBefore(x, t[0]) {
      if x.x == px && x.y == py {
        AtPlaceNone(t, px, py);
      }
      assert InsertSite(x, t) == [x] + t;
      AtPlaceAppend([x], t, px, py);
    } else {
      SortedTail(t);
      var r := InsertSite(x, t[1..]);
      InsertSiteAtPlace(x, t[1..], px, py);
      assert InsertSite(x, t) == [t[0]] + r;
      assert t == [t[0]] + t[1..];
      AtPlaceCons(t[0], r, t[1..], if x.x == px && x.y == py then [x] else [], px, py);
    }
  }

  /** Putting the same site in front of two lists keeps a relation between the sites they hold at a place. */
  lemma AtPlaceCons(h: Site, r: seq<Site>, u: seq<Site>, extra: seq<Site>, px: real, py: real)
    requires AtPlace(r, px, py) == AtPlace(u, px, py) + extra
    ensures AtPlace([h] + r, px, py) == AtPlace([h] + u, px, py) + extra
  {
    var a, b := AtPlace([h], px, py), AtPlace(u, px, py);
    calc {
      AtPlace([h] + r, px, py);
    ==  { AtPlaceAppend([h], r, px, py); }
      a + (b + extra);
    ==
      (a + b) + extra;
    ==  { AtPlaceAppend([h], u, px, py); }
      AtPlace([h] + u, px, py) + extra;
    }
  }

  /** The tail of a sorted list is sorted. */
  lemma SortedTail(t: seq<Site>)
    requires SortedDescending(t) && |t| > 0
    ensures SortedDescending(t[1..])
  {
    forall i, j | 0 <= i < j < |t[1..]| ensures !SortsBefore(t[1..][j], t[1..][i]) {
      assert t[1..][j] == t[j + 1] && t[1..][i] == t[i + 1];
    }
  }

  /** No site of a sorted list `t` is at the place of a site that sorts before its head. */
  lemma AtPlaceNone(t: seq<Site>, px: real, py: real)
    requires SortedDescending(t) && |t| > 0
    requires SortsBefore(Site(0, px, py), t[0])
    ensures AtPlace(t, px, py) == []
  {
    forall k | 0 <= k < |t| ensures !(t[k].x == px && t[k].y == py) {
      if k > 0 {
        assert !SortsBefore(t[k], t[0]);
      }
    }
  }

  /** The sort is stable: at every place, the sorted sites are the input's sites there, in input order. */
  lemma {:induction false} SortSitesStable(s: seq<Site>, px: real, py: real)
    ensures AtPlace(SortSites(s), px, py) == AtPlace(s, px, py)
    decreases |s|
  {
    if s != [] {
      var n := |s| - 1;
      assert s == s[..n] + [s[n]];
      SortSitesStable(s[..n], px, py);
      InsertSiteAtPlace(s[n], SortSites(s[..n]), px, py);
      AtPlaceAppend(s[..n], [s[n]], px, py);
    }
  }

  /** `s` back to front; for the sites, the order compute pops them: the sorted array read from its end. */
  function Reversed<T>(s: seq<T>): (r: seq<T>)
    ensures |r| == |s|
    ensures forall i :: 0 <= i < |s| ==> r[i] == s[|s| - 1 - i]
  {
    if s == [] then [] else Reversed(s[1..]) + [s[0]]
  }

  /** Popped from the end, a comparator-sorted list comes out in sweep order. */
  lemma PoppedInSweepOrder(s: seq<Site>)
    requires SortedDescending(s)
    ensures forall i, j :: 0 <= i < j < |s| ==> !SiteEarlier(Reversed(s)[j], Reversed(s)[i])
  {
    var r := Reversed(s);
    forall i, j | 0 <= i < j < |s| ensures !SiteEarlier(r[j], r[i]) {
      assert r[j] == s[|s| - 1 - j] && r[i] == s[|s| - 1 - i];
      SortsBeforeIsLater(r[i], r[j]);
    }
  }

  /** Two sites at the same coordinates. */
  predicate SamePlace(a: Site, b: Site)
  {
    a.x == b.x && a.y == b.y
  }

  /**
   * The sites compute keeps, in the order it meets them: a site is skipped when it is at
   * the coordinates of the last site kept (`last`, none before the first site).
   */
  function Dedup(s: seq<Site>, last: Option<Site>): (r: seq<Site>)
    ensures |r| <= |s|
    ensures forall k :: 0 <= k < |r| ==> r[k] in s
  {
    if s == [] then []
    else if last.Some? && SamePlace(s[0], last.value) then Dedup(s[1..], last)
    else [s[0]] + Dedup(s[1..], Some(s[0]))
  }

  /** Sites in sweep order, with no two consecutive at the same place: strictly increasing. */
  predicate StrictlyIncreasing(s: seq<Site>)
  {
    forall i :: 0 < i < |s| ==> SiteEarlier(s[i - 1], s[i])
  }

  /** Deduplicating sites met in sweep order keeps them strictly increasing, so no two kept sites share a place. */
  lemma {:induction false} DedupIncreasing(s: seq<Site>, last: Option<Site>)
    requires forall i, j :: 0 <= i < j < |s| ==> !SiteEarlier(s[j], s[i])
    requires last.Some? ==> forall i :: 0 <= i < |s| ==> !SiteEarlier(s[i], last.value)
    ensures var r := Dedup(s, last);
      StrictlyIncreasing(r) && (last.Some? && |r| > 0 ==> SiteEarlier(last.value, r[0]))
    decreases |s|
  {
    if s != [] {
      var t := s[1..];
      assert forall i, j :: 0 <= i < j < |t| ==> !SiteEarlier(t[j], t[i]) by {
        forall i, j | 0 <= i < j < |t| ensures !SiteEarlier(t[j], t[i]) {
          assert t[j] == s[j + 1] && t[i] == s[i + 1];
        }
      }
      if last.Some? && SamePlace(s[0], last.value) {
        DedupIncreasing(t, last);
      } else {
        assert forall i :: 0 <= i < |t| ==> !SiteEarlier(t[i], s[0]) by {
          forall i | 0 <= i < |t| ensures !SiteEarlier(t[i], s[0]) {
            assert t[i] == s[i + 1];
          }
        }
        DedupIncreasing(t, Some(s[0]));
        var r := Dedup(s, last);
        var rt := Dedup(t, Some(s[0]));
        assert r == [s[0]] + rt;
        forall i | 0 < i < |r| ensures SiteEarlier(r[i - 1], r[i]) {
          if i > 1 {
            assert r[i - 1] == rt[i - 2] && r[i] == rt[i - 1];
          }
        }
        if last.Some? && |r| > 0 {
          assert !SiteEarlier(s[0], last.value);
        }
      }
    }
  }

  /** Every site met shares its place with the last kept site before it or with a site kept from it. */
  lemma {:induction false} DedupCovers(s: seq<Site>, last: Option<Site>, i: nat)
    requires i < |s|
    ensures (last.Some? && SamePlace(s[i], last.value)) || SharesPlace(s[i], Dedup(s, last))
    decreases |s|
  {
    var t := s[1..];
    if last.Some? && SamePlace(s[0], last.value) {
      if i > 0 {
        assert s[i] == t[i - 1];
        DedupCovers(t, last, i - 1);
      }
    } else {
      var r := Dedup(s, last);
      var rt := Dedup(t, Some(s[0]));
      assert r == [s[0]] + rt;
      if i == 0 || SamePlace(s[i], s[0]) {
        assert SamePlace(s[i], r[0]);
      } else {
        assert s[i] == t[i - 1];
        DedupCovers(t, Some(s[0]), i - 1);
        var k :| 0 <= k < |rt| && SamePlace(s[i], rt[k]);
        assert r[k + 1] == rt[k];
      }
    }
  }

  /**
   * compute's choice at each step: the next site is handled before the first circle event
   * when there is a site and no event, or the site is strictly earlier in sweep order
   * than the event's (x, y).  Without a site, the event is handled; with neither, the sweep ends.
   */
  predicate SiteEventFirst(site: Option<Site>, circle: Option<CircleEvent>)
  {
    site.Some? && (circle.None? || site.value.y < circle.value.y || (site.value.y == circle.value.y && site.value.x < circle.value.x))
  }

  /** The choice is the sweep order: the site goes first iff it is strictly earlier than the event's bottom point. */
  lemma SiteEventFirstIsSweepOrder(site: Site, circle: CircleEvent)
    ensures SiteEventFirst(Some(site), Some(circle)) <==> SiteEarlier(site, Site(site.id, circle.x, circle.y))
    ensures SiteEventFirst(Some(site), Some(circle)) <==> !NotAfter(circle, CircleEvent(circle.arc, circle.site, site.x, site.y, circle.ycenter))
  {
  }

  // ---------------------------------------------------------------------------
  // The site stream of compute

  /** `Array.prototype.pop` on the sorted sites: the last one, none when empty, and the sites left. */
  function Pop(s: seq<Site>): (r: (Option<Site>, seq<Site>))
    ensures s == [] ==> r == (None, [])
    ensures s != [] ==> r.0.Some? && r.1 + [r.0.value] == s
  {
    if s == [] then (None, []) else (Some(s[|s| - 1]), s[..|s| - 1])
  }

  /**
   * Popping the sorted sites `s`: `rest` is what is left of the array, `site` the site in
   * hand (none once the array is exhausted) and `done` the sites handled, in pop order.
   */
  predicate Popping(s: seq<Site>, rest: seq<Site>, site: Option<Site>, done: seq<Site>)
  {
    |rest| + |done| + (if site.Some? then 1 else 0) == |s|
    && rest == s[..|rest|] && (site.Some? ==> site.value == s[|rest|]) && (site.None? ==> rest == [])
    && done == Reversed(s)[..|done|]
  }

  /** The first pop starts the stream. */
  lemma PoppingStart(s: seq<Site>)
    ensures Popping(s, Pop(s).1, Pop(s).0, [])
  {
  }

  /** Handling the site in hand and popping the next keeps the stream. */
  lemma PoppingStep(s: seq<Site>, rest: seq<Site>, site: Option<Site>, done: seq<Site>)
    requires Popping(s, rest, site, done) && site.Some?
    ensures Popping(s, Pop(rest).1, Pop(rest).0, done + [site.value])
  {
    var d := done + [site.value];
    assert Reversed(s)[|done|] == s[|rest|];
    assert d == Reversed(s)[..|d|];
    if rest != [] {
      assert Pop(rest).1 == s[..|rest| - 1];
    }
  }

  /** Once no site is in hand, every site has been handled, in the order `pop` yields them. */
  lemma PoppingEnd(s: seq<Site>, rest: seq<Site>, done: seq<Site>)
    requires Popping(s, rest, None, done)
    ensures done == Reversed(s)
  {
  }

  /** The last site `Dedup` kept, or `last` when it kept none: the (xsitex, xsitey) of compute. */
  function LastKept(s: seq<Site>, last: Option<Site>): (r: Option<Site>)
    ensures r.Some? && r != last ==> r.value in s
  {
    var d := Dedup(s, last);
    if d == [] then last else Some(d[|d| - 1])
  }

  /** Meeting one more site: it is kept unless it is at the place of the last site kept. */
  lemma {:induction false} DedupSnoc(a: seq<Site>, x: Site, last: Option<Site>)
    ensures Dedup(a + [x], last) ==
      Dedup(a, last) + (if LastKept(a, last).Some? && SamePlace(x, LastKept(a, last).value) then [] else [x])
    decreases |a|
  {
    if a == [] {
      assert a + [x] == [x];
    } else {
      assert (a + [x])[0] == a[0] && (a + [x])[1..] == a[1..] + [x];
      if last.Some? && SamePlace(a[0], last.value) {
        DedupSnoc(a[1..], x, last);
      } else {
        DedupSnoc(a[1..], x, Some(a[0]));
        assert LastKept(a, last) == LastKept(a[1..], Some(a[0]));
      }
    }
  }

  /** Consecutive sites strictly increasing makes any two, in order, strictly increasing. */
  lemma {:induction false} IncreasingApart(s: seq<Site>, i: nat, j: nat)
    requires StrictlyIncreasing(s) && i < j < |s|
    ensures SiteEarlier(s[i], s[j])
    decreases j - i
  {
    if i + 1 < j {
      IncreasingApart(s, i + 1, j);
    }
  }

  /** The sites compute keeps, in order: the sites sorted, popped and deduplicated. */
  function KeptSites(sites: seq<Site>): seq<Site>
  {
    Dedup(Reversed(SortSites(sites)), None)
  }

  /** Some site of `s` is at the place of `x`. */
  predicate SharesPlace(x: Site, s: seq<Site>)
  {
    exists k :: 0 <= k < |s| && SamePlace(x, s[k])
  }

  /** The kept sites are strictly increasing in sweep order, so no two share a place. */
  lemma KeptIncreasing(sites: seq<Site>)
    ensures StrictlyIncreasing(KeptSites(sites))
  {
    PoppedInSweepOrder(SortSites(sites));
    DedupIncreasing(Reversed(SortSites(sites)), None);
  }

  /** Every input site shares its place with a kept site: deduplication drops no place. */
  lemma KeptCovers(sites: seq<Site>, x: Site)
    requires x in sites
    ensures SharesPlace(x, KeptSites(sites))
  {
    var sorted := SortSites(sites);
    var r := Reversed(sorted);
    assert x in sorted by {
      assert x in multiset(sorted);
    }
    var j :| 0 <= j < |sorted| && sorted[j] == x;
    var i := |sorted| - 1 - j;
    assert r[i] == x;
    DedupCovers(r, None, i);
  }

  /** Site ids stand for the site objects: two sites with the same id are the same site. */
  predicate SameIds(s: seq<Site>)
  {
    forall i, j :: 0 <= i < |s| && 0 <= j < |s| && s[i].id == s[j].id ==> s[i] == s[j]
  }

  /** Each kept site's id maps to the index of a kept site equal to it: `site.voronoiId` names the site's own cell. */
  predicate IdsOf(kept: seq<Site>, vid: map<nat, nat>)
  {
    forall k :: 0 <= k < |kept| ==> kept[k].id in vid && vid[kept[k].id] < |kept| && kept[vid[kept[k].id]] == kept[k]
  }

  /** Keeping one more site of `s`, with its id mapped to the next index, keeps the ids right. */
  lemma IdsSnoc(kept: seq<Site>, vid: map<nat, nat>, x: Site, s: seq<Site>)
    requires IdsOf(kept, vid) && SameIds(s) && x in s && forall y :: y in kept ==> y in s
    ensures IdsOf(kept + [x], vid[x.id := |kept|])
  {
    var kept', vid' := kept + [x], vid[x.id := |kept|];
    forall k | 0 <= k < |kept'| ensures kept'[k].id in vid' && vid'[kept'[k].id] < |kept'| && kept'[vid'[kept'[k].id]] == kept'[k] {
      if k < |kept| && kept[k].id == x.id {
        assert kept[k] in s;
        var a :| 0 <= a < |s| && s[a] == kept[k];
        var b :| 0 <= b < |s| && s[b] == x;
      }
    }
  }

  /** When the kept sites are strictly increasing, each kept site's id maps exactly to its own index. */
  lemma KeptIds(kept: seq<Site>, vid: map<nat, nat>)
    requires StrictlyIncreasing(kept) && IdsOf(kept, vid)
    ensures forall k :: 0 <= k < |kept| ==> vid[kept[k].id] == k
  {
    forall k | 0 <= k < |kept| ensures vid[kept[k].id] == k {
      var v := vid[kept[k].id];
      if v < k {
        IncreasingApart(kept, v, k);
        assert false;
      } else if k < v {
        IncreasingApart(kept, k, v);
        assert false;
      }
    }
  }

  /** Reordering the sites keeps ids standing for sites. */
  lemma SameIdsPermuted(s: seq<Site>, t: seq<Site>)
    requires SameIds(s) && multiset(t) == multiset(s)
    ensures SameIds(t)
  {
    forall i, j | 0 <= i < |t| && 0 <= j < |t| && t[i].id == t[j].id ensures t[i] == t[j] {
      assert t[i] in multiset(s) && t[j] in multiset(s);
      var a :| 0 <= a < |s| && s[a] == t[i];
      var b :| 0 <= b < |s| && s[b] == t[j];
    }
  }
}
