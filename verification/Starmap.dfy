/** Routes over the jump-beacon network: breadth-first search with an early exit,
    proved to return a shortest route exactly when there is one. */
module Starmap {
  import opened Counting

  type Name = string

  /** The beacon table: each known name with its outgoing links, in order. A link may
      name a beacon that the table does not have. */
  type Universe = map<Name, seq<Name>>

  // ---- Paths ---------------------------------------------------------------

  ghost predicate Linked(uni: Universe, a: Name, b: Name) {
    a in uni && b in uni[a]
  }

  /** A non-empty chain of links. */
  ghost predicate IsPath(uni: Universe, p: seq<Name>) {
    p != [] && forall i :: 0 <= i < |p| - 1 ==> Linked(uni, p[i], p[i + 1])
  }

  ghost predicate Route(uni: Universe, src: Name, dst: Name, p: seq<Name>) {
    IsPath(uni, p) && p[0] == src && p[|p| - 1] == dst
  }

  ghost predicate Reachable(uni: Universe, src: Name, dst: Name) {
    exists p :: Route(uni, src, dst, p)
  }

  /** Every name a search from src can ever see. */
  ghost function Names(uni: Universe, src: Name): set<Name> {
    {src} + set a, b | a in uni && b in uni[a] :: b
  }

  // ---- What the search knows -----------------------------------------------

  /** `active` are the names still to expand, nearest first; `dist` is how many hops away
      each visited name was found, through its predecessor in `from`. */
  ghost predicate SearchOk(uni: Universe, src: Name, visited: set<Name>, from: map<Name, Name>, active: seq<Name>,
                           dist: map<Name, nat>) {
    && src in visited && visited == dist.Keys && dist[src] == 0
    && (forall v :: v in visited && v != src ==> FoundFrom(uni, from, dist, v))
    && (forall i :: 0 <= i < |active| ==> active[i] in visited)
    && (forall i, j :: 0 <= i < j < |active| ==> dist[active[i]] <= dist[active[j]])
    && (active != [] ==> forall v :: v in visited ==> dist[v] <= dist[active[0]] + 1)
    && (forall v, u :: v in visited && v !in active && Linked(uni, v, u) ==> Near(dist, v, u))
  }

  ghost predicate FoundFrom(uni: Universe, from: map<Name, Name>, dist: map<Name, nat>, v: Name) {
    v in from && v in dist && from[v] in dist && Linked(uni, from[v], v) && dist[v] == dist[from[v]] + 1
  }

  /** u was seen, at most one hop past v. */
  ghost predicate Near(dist: map<Name, nat>, v: Name, u: Name) {
    v in dist && u in dist && dist[u] <= dist[v] + 1
  }

  /** No path is shorter than the search believes: a visited end is at most as far as
      any path to it, and an unvisited end is past everything still to expand. */
  lemma {:induction false} PathsAreNotShorter(
      uni: Universe, src: Name, visited: set<Name>, from: map<Name, Name>, active: seq<Name>, dist: map<Name, nat>,
      p: seq<Name>)
    requires SearchOk(uni, src, visited, from, active, dist)
    requires IsPath(uni, p) && p[0] == src
    ensures var u, k := p[|p| - 1], |p| - 1;
      if u in visited then dist[u] <= k else active != [] && dist[active[0]] + 1 <= k
  {
    var k := |p| - 1;
    if k > 0 {
      PathsAreNotShorter(uni, src, visited, from, active, dist, p[..k]);
      var v, u := p[k - 1], p[k];
      assert Linked(uni, v, u);
      if v in visited && v in active {
        var i :| 0 <= i < |active| && active[i] == v;
        assert i > 0 ==> dist[active[0]] <= dist[active[i]];
      }
      if v in visited && v !in active { assert Near(dist, v, u); }
    }
  }

  /** A newly seen neighbour of the name being expanded goes to the back of the queue. */
  lemma VisitKeeps(uni: Universe, src: Name, visited: set<Name>, from: map<Name, Name>, active: seq<Name>,
                   dist: map<Name, nat>,
                   cur: Name, nbr: Name)
    requires SearchOk(uni, src, visited, from, active, dist)
    requires active != [] && active[0] == cur && Linked(uni, cur, nbr) && nbr !in visited
    ensures SearchOk(uni, src, visited + {nbr}, from[nbr := cur], active + [nbr], dist[nbr := dist[cur] + 1])
  {
    var dist', from' := dist[nbr := dist[cur] + 1], from[nbr := cur];
    forall v | v in visited && v != src ensures FoundFrom(uni, from', dist', v) {
      assert FoundFrom(uni, from, dist, v);
    }
    forall v, u | v in visited + {nbr} && v !in active + [nbr] && Linked(uni, v, u) ensures Near(dist', v, u) {
      assert v !in active && Near(dist, v, u);
    }
  }

  /** A fully expanded name leaves the front of the queue. */
  lemma ExpandedKeeps(uni: Universe, src: Name, visited: set<Name>, from: map<Name, Name>, active: seq<Name>,
                      dist: map<Name, nat>)
    requires SearchOk(uni, src, visited, from, active, dist) && active != []
    requires forall u :: Linked(uni, active[0], u) ==> Near(dist, active[0], u)
    ensures SearchOk(uni, src, visited, from, active[1..], dist)
  {
    var rest := active[1..];
    assert active == [active[0]] + rest;
  }

  // ---- Tie-break by link order ----------------------------------------------

  ghost function Links(uni: Universe, a: Name): seq<Name> {
    if a in uni then uni[a] else []
  }

  /** x is listed before the first y. */
  ghost predicate Earlier(links: seq<Name>, x: Name, y: Name) {
    exists i :: 0 <= i < |links| && links[i] == x && y !in links[..i + 1]
  }

  /** p takes the earlier link where the two paths part. */
  ghost predicate Before(uni: Universe, p: seq<Name>, q: seq<Name>) {
    exists k :: 0 <= k < |p| - 1 && k < |q| - 1 && PartAt(uni, p, q, k)
  }

  ghost predicate PartAt(uni: Universe, p: seq<Name>, q: seq<Name>, k: nat)
    requires k < |p| - 1 && k < |q| - 1
  {
    p[..k + 1] == q[..k + 1] && Earlier(Links(uni, p[k]), p[k + 1], q[k + 1])
  }

  ghost predicate SameOrBefore(uni: Universe, p: seq<Name>, q: seq<Name>) {
    p == q || Before(uni, p, q)
  }

  /** Shorter, or as long and by earlier links. */
  ghost predicate Precedes(uni: Universe, p: seq<Name>, q: seq<Name>) {
    |p| < |q| || (|p| == |q| && Before(uni, p, q))
  }

  lemma BeforeExtends(uni: Universe, p: seq<Name>, q: seq<Name>, x: Name, y: Name)
    requires Before(uni, p, q)
    ensures Before(uni, p + [x], q + [y])
  {
    var k :| 0 <= k < |p| - 1 && k < |q| - 1 && PartAt(uni, p, q, k);
    assert (p + [x])[..k + 1] == p[..k + 1] && (q + [y])[..k + 1] == q[..k + 1];
    assert PartAt(uni, p + [x], q + [y], k);
  }

  lemma BeforeTransitive(uni: Universe, p: seq<Name>, q: seq<Name>, r: seq<Name>)
    requires Before(uni, p, q) && Before(uni, q, r)
    ensures Before(uni, p, r)
  {
    var k :| 0 <= k < |p| - 1 && k < |q| - 1 && PartAt(uni, p, q, k);
    var l :| 0 <= l < |q| - 1 && l < |r| - 1 && PartAt(uni, q, r, l);
    PartTransitive(uni, p, q, r, k, l);
  }

  lemma PartTransitive(uni: Universe, p: seq<Name>, q: seq<Name>, r: seq<Name>, k: nat, l: nat)
    requires k < |p| - 1 && k < |q| - 1 && l < |q| - 1 && l < |r| - 1 && PartAt(uni, p, q, k) && PartAt(uni, q, r, l)
    ensures var m := if k < l then k else l; m < |p| - 1 && m < |r| - 1 && PartAt(uni, p, r, m)
  {
    hide Earlier, Links;
    var m := if k < l then k else l;
    SameStart(p, q, k + 1, m + 1);
    SameStart(q, r, l + 1, m + 1);
    if k < l {
      SameStart(q, r, l + 1, k + 2);
    } else if l < k {
      SameStart(p, q, k + 1, l + 2);
    } else {
      EarlierTransitive(Links(uni, p[k]), p[k + 1], q[k + 1], r[k + 1]);
    }
  }

  lemma SameStart(p: seq<Name>, q: seq<Name>, n: nat, m: nat)
    requires 0 < m <= n <= |p| && n <= |q| && p[..n] == q[..n]
    ensures p[..m] == q[..m] && p[m - 1] == q[m - 1]
  {
    assert p[..m] == p[..n][..m] && q[..m] == q[..n][..m];
    assert p[m - 1] == p[..m][m - 1];
  }

  lemma EarlierTransitive(links: seq<Name>, x: Name, y: Name, z: Name)
    requires Earlier(links, x, y) && Earlier(links, y, z)
    ensures Earlier(links, x, z)
  {
    var i :| 0 <= i < |links| && links[i] == x && y !in links[..i + 1];
    var j :| 0 <= j < |links| && links[j] == y && z !in links[..j + 1];
    forall m | 0 <= m <= i ensures links[m] != y {
      assert links[..i + 1][m] == links[m];
    }
    assert links[..i + 1] <= links[..j + 1];
  }

  /** `order` are the visited names as the search met them, and `path` the way it found each. */
  datatype Tree = Tree(order: seq<Name>, path: map<Name, seq<Name>>)

  ghost predicate FoundAlong(uni: Universe, src: Name, from: map<Name, Name>, dist: map<Name, nat>,
                             path: map<Name, seq<Name>>, v: Name) {
    && v in path && v in dist && Route(uni, src, v, path[v]) && |path[v]| == dist[v] + 1
    && (v != src ==> v in from && from[v] in path && path[v] == path[from[v]] + [v])
  }

  /** No path of the same length takes earlier links. */
  ghost predicate FirstOfShortest(uni: Universe, src: Name, v: Name, p: seq<Name>) {
    forall q :: Route(uni, src, v, q) && |q| == |p| ==> SameOrBefore(uni, p, q)
  }

  /** The predecessor of v was expanded, or is being expanded and v is among its links so far. */
  ghost predicate MetInTurn(from: map<Name, Name>, order: seq<Name>, h: nat, done: seq<Name>, v: Name)
    requires h <= |order|
  {
    v in from && (from[v] in order[..h] || (h < |order| && from[v] == order[h] && v in done))
  }

  ghost predicate Ordered(uni: Universe, t: Tree) {
    forall i, j :: 0 <= i < j < |t.order| ==> MetBefore(uni, t, t.order[i], t.order[j])
  }

  ghost predicate MetBefore(uni: Universe, t: Tree, v: Name, w: Name) {
    v in t.path && w in t.path && Precedes(uni, t.path[v], t.path[w])
  }

  ghost predicate AllFound(uni: Universe, src: Name, visited: set<Name>, from: map<Name, Name>, dist: map<Name, nat>,
                           t: Tree) {
    && (forall v :: v in visited <==> v in t.order)
    && (forall v :: v in visited ==> FoundAlong(uni, src, from, dist, t.path, v))
  }

  ghost predicate AllFirst(uni: Universe, src: Name, visited: set<Name>, t: Tree) {
    forall v :: v in visited ==> v in t.path && FirstOfShortest(uni, src, v, t.path[v])
  }

  ghost predicate AllMetInTurn(src: Name, visited: set<Name>, from: map<Name, Name>, active: seq<Name>, t: Tree,
                               done: seq<Name>) {
    && |active| <= |t.order| && active == t.order[|t.order| - |active|..]
    && forall v :: v in visited && v != src ==> MetInTurn(from, t.order, |t.order| - |active|, done, v)
  }

  /** The names are met in the order of their paths, and each path is the first of the
      shortest ones. The last |active| names are still to expand; the links `done` of the
      first of them were walked. */
  ghost predicate TreeOk(uni: Universe, src: Name, visited: set<Name>, from: map<Name, Name>, active: seq<Name>,
                         dist: map<Name, nat>, t: Tree, done: seq<Name>) {
    && AllFound(uni, src, visited, from, dist, t) && AllFirst(uni, src, visited, t) && Ordered(uni, t)
    && AllMetInTurn(src, visited, from, active, t, done)
  }

  /** The last but one name of a shortest path to a name met now is as far as the front of
      the queue, and still in the queue. */
  lemma LastHopIsActive(uni: Universe, src: Name, visited: set<Name>, from: map<Name, Name>, active: seq<Name>,
                        dist: map<Name, nat>, nbr: Name, q: seq<Name>)
    requires SearchOk(uni, src, visited, from, active, dist) && active != [] && active[0] in dist && nbr !in visited
    requires Route(uni, src, nbr, q) && |q| == dist[active[0]] + 2
    ensures var w := q[|q| - 2]; w in active && w in visited && w in dist && dist[w] == dist[active[0]]
    ensures Route(uni, src, q[|q| - 2], q[..|q| - 1]) && q == q[..|q| - 1] + [nbr]
  {
    var n := |q| - 1;
    var w := q[n - 1];
    PathsAreNotShorter(uni, src, visited, from, active, dist, q[..n]);
    assert Linked(uni, w, q[n]);
    StartFacts(uni, src, visited, from, active, dist);
    hide SearchOk, IsPath, Linked;
    ExpandedOrFarther(uni, src, visited, from, active, dist, w, nbr);
  }

  /** An expanded name has seen its neighbours; any other is no nearer than the front. */
  lemma ExpandedOrFarther(uni: Universe, src: Name, visited: set<Name>, from: map<Name, Name>, active: seq<Name>,
                          dist: map<Name, nat>, w: Name, nbr: Name)
    requires SearchOk(uni, src, visited, from, active, dist) && active != []
    requires w in visited && Linked(uni, w, nbr) && nbr !in visited
    ensures w in active && active[0] in dist && w in dist && dist[active[0]] <= dist[w]
  {
    assert !Near(dist, w, nbr);
    var i :| 0 <= i < |active| && active[i] == w;
    assert i > 0 ==> dist[active[0]] <= dist[active[i]];
  }

  lemma FoundLength(uni: Universe, src: Name, visited: set<Name>, from: map<Name, Name>, dist: map<Name, nat>, t: Tree,
                    v: Name)
    requires AllFound(uni, src, visited, from, dist, t) && v in visited
    ensures v in t.path && v in dist && Route(uni, src, v, t.path[v]) && |t.path[v]| == dist[v] + 1
  {
    assert FoundAlong(uni, src, from, dist, t.path, v);
  }

  lemma FrontPrecedes(uni: Universe, src: Name, visited: set<Name>, from: map<Name, Name>, active: seq<Name>, t: Tree,
                      done: seq<Name>, w: Name)
    requires AllMetInTurn(src, visited, from, active, t, done) && Ordered(uni, t) && w in active
    requires active[0] in t.path && w in t.path && |t.path[w]| == |t.path[active[0]]|
    ensures SameOrBefore(uni, t.path[active[0]], t.path[w])
  {
    hide Before;
    var j :| 0 <= j < |active| && active[j] == w;
    var h := |t.order| - |active|;
    assert t.order[h] == active[0] && t.order[h + j] == w;
    assert j > 0 ==> MetBefore(uni, t, t.order[h], t.order[h + j]);
  }

  lemma SameOrBeforeExtends(uni: Universe, p: seq<Name>, q: seq<Name>, r: seq<Name>, x: Name)
    requires SameOrBefore(uni, p, q) && SameOrBefore(uni, q, r)
    ensures SameOrBefore(uni, p + [x], r + [x])
  {
    hide Before;
    if p != q && q != r { BeforeTransitive(uni, p, q, r); }
    if p != r { BeforeExtends(uni, p, r, x, x); }
  }

  /** Among the shortest paths to a name met now, the one through the front of the queue
      takes the earliest links. */
  lemma FrontPathIsFirst(uni: Universe, src: Name, visited: set<Name>, from: map<Name, Name>, active: seq<Name>,
                         dist: map<Name, nat>, t: Tree, done: seq<Name>, nbr: Name, q: seq<Name>)
    requires SearchOk(uni, src, visited, from, active, dist) && TreeOk(uni, src, visited, from, active, dist, t, done)
    requires active != [] && active[0] in visited && nbr !in visited && active[0] in t.path
    requires Route(uni, src, nbr, q) && |q| == |t.path[active[0]]| + 1
    ensures SameOrBefore(uni, t.path[active[0]] + [nbr], q)
  {
    hide SearchOk, SameOrBefore, AllFound, AllFirst, Ordered, AllMetInTurn, Route;
    FoundLength(uni, src, visited, from, dist, t, active[0]);
    LastHopIsActive(uni, src, visited, from, active, dist, nbr, q);
    var w, q' := q[|q| - 2], q[..|q| - 1];
    FoundLength(uni, src, visited, from, dist, t, w);
    TreePathIsFirst(uni, src, visited, t, w);
    FrontPrecedes(uni, src, visited, from, active, t, done, w);
    SameOrBeforeExtends(uni, t.path[active[0]], t.path[w], q', nbr);
  }

  /** A name met now comes after every name met before. */
  lemma MetLast(uni: Universe, src: Name, visited: set<Name>, from: map<Name, Name>, active: seq<Name>,
                dist: map<Name, nat>, t: Tree, i: nat, x: Name)
    requires src in visited && src in dist && dist[src] == 0 && active != [] && i < |Links(uni, active[0])|
    requires TreeOk(uni, src, visited, from, active, dist, t, Links(uni, active[0])[..i])
    requires active[0] in visited && x in visited && active[0] in t.path && x in t.path && Near(dist, active[0], x)
    requires Links(uni, active[0])[i] !in visited
    requires forall y :: y in Links(uni, active[0])[..i] ==> y in visited
    ensures Precedes(uni, t.path[x], t.path[active[0]] + [Links(uni, active[0])[i]])
  {
    hide AllFirst;
    var cur, h := active[0], |t.order| - |active|;
    var links := Links(uni, cur);
    assert t.order[h] == cur;
    assert FoundAlong(uni, src, from, dist, t.path, cur) && FoundAlong(uni, src, from, dist, t.path, x);
    if |t.path[x]| == |t.path[cur]| + 1 {
      assert x != src by { StartIsShort(uni, src, visited, from, dist, t, cur); }
      assert MetInTurn(from, t.order, h, links[..i], x);
      var p := from[x];
      hide AllFound;
      if p in t.order[..h] {
        var j :| 0 <= j < h && t.order[j] == p;
        assert MetBefore(uni, t, t.order[j], t.order[h]);
        BeforeExtends(uni, t.path[p], t.path[cur], x, links[i]);
      } else {
        LaterLink(uni, cur, t.path[cur], i, x);
      }
    }
  }

  /** The start is found at distance 0. */
  lemma StartIsShort(uni: Universe, src: Name, visited: set<Name>, from: map<Name, Name>, dist: map<Name, nat>,
                     t: Tree, cur: Name)
    requires AllFound(uni, src, visited, from, dist, t) && src in dist && dist[src] == 0 && src in visited
    ensures src in t.path && |t.path[src]| == 1
  {
    assert FoundAlong(uni, src, from, dist, t.path, src);
  }

  lemma LaterLink(uni: Universe, cur: Name, p: seq<Name>, i: nat, x: Name)
    requires p != [] && p[|p| - 1] == cur && i < |Links(uni, cur)| && x in Links(uni, cur)[..i]
    requires Links(uni, cur)[i] !in Links(uni, cur)[..i]
    ensures Before(uni, p + [x], p + [Links(uni, cur)[i]])
  {
    var links := Links(uni, cur);
    var j :| 0 <= j < i && links[j] == x;
    assert links[i] !in links[..j + 1] by { assert links[..j + 1] <= links[..i]; }
    var k := |p| - 1;
    assert (p + [x])[..k + 1] == p && (p + [links[i]])[..k + 1] == p;
    assert PartAt(uni, p + [x], p + [links[i]], k);
  }

  lemma VisitKeepsTree(uni: Universe, src: Name, visited: set<Name>, from: map<Name, Name>, active: seq<Name>,
                       dist: map<Name, nat>, t: Tree, i: nat)
    requires SearchOk(uni, src, visited, from, active, dist) && active != [] && i < |Links(uni, active[0])|
    requires TreeOk(uni, src, visited, from, active, dist, t, Links(uni, active[0])[..i])
    requires Links(uni, active[0])[i] !in visited && active[0] in t.path && active[0] in dist
    requires forall y :: y in Links(uni, active[0])[..i] ==> y in visited
    ensures var cur, nbr := active[0], Links(uni, active[0])[i];
      TreeOk(uni, src, visited + {nbr}, from[nbr := cur], active + [nbr], dist[nbr := dist[cur] + 1],
             Visit(t, cur, nbr), Links(uni, cur)[..i + 1])
  {
    FrontFacts(uni, src, visited, from, active, dist);
    StartFacts(uni, src, visited, from, active, dist);
    var cur, nbr := active[0], Links(uni, active[0])[i];
    hide SearchOk, AllFound, AllFirst, Ordered, AllMetInTurn, Near, FoundFrom, Visit;
    VisitKeepsFound(uni, src, visited, from, active, dist, t, cur, nbr);
    VisitKeepsFirst(uni, src, visited, from, active, dist, t, Links(uni, cur)[..i], nbr);
    VisitKeepsOrdered(uni, src, visited, from, active, dist, t, i);
    VisitKeepsTurns(uni, src, visited, from, active, t, i);
  }

  lemma StartFacts(uni: Universe, src: Name, visited: set<Name>, from: map<Name, Name>, active: seq<Name>,
                   dist: map<Name, nat>)
    requires SearchOk(uni, src, visited, from, active, dist)
    ensures src in visited && src in dist && dist[src] == 0 && dist.Keys == visited
    ensures forall v :: v in visited && v != src ==> v in from && from[v] in visited
  {
    assert forall v :: v in visited && v != src ==> FoundFrom(uni, from, dist, v);
  }

  lemma VisitKeepsFound(uni: Universe, src: Name, visited: set<Name>, from: map<Name, Name>, active: seq<Name>,
                        dist: map<Name, nat>, t: Tree, cur: Name, nbr: Name)
    requires AllFound(uni, src, visited, from, dist, t) && cur in visited && src in visited
    requires nbr !in visited && cur in t.path && cur in dist && Linked(uni, cur, nbr)
    requires forall v :: v in visited && v != src ==> v in from && from[v] in visited
    ensures AllFound(uni, src, visited + {nbr}, from[nbr := cur], dist[nbr := dist[cur] + 1], Visit(t, cur, nbr))
  {
    var from', dist', t' := from[nbr := cur], dist[nbr := dist[cur] + 1], Visit(t, cur, nbr);
    assert FoundAlong(uni, src, from, dist, t.path, cur);
    forall v | v in visited + {nbr} ensures FoundAlong(uni, src, from', dist', t'.path, v) {
      if v == nbr {
        RouteExtends(uni, src, cur, nbr, t.path[cur]);
      } else {
        assert FoundAlong(uni, src, from, dist, t.path, v);
      }
    }
  }

  lemma VisitKeepsFirst(uni: Universe, src: Name, visited: set<Name>, from: map<Name, Name>, active: seq<Name>,
                        dist: map<Name, nat>, t: Tree, done: seq<Name>, nbr: Name)
    requires SearchOk(uni, src, visited, from, active, dist) && TreeOk(uni, src, visited, from, active, dist, t, done)
    requires active != [] && active[0] in visited && active[0] in t.path && nbr !in visited
    ensures AllFirst(uni, src, visited + {nbr}, Visit(t, active[0], nbr))
  {
    hide SearchOk, AllFound, Ordered, AllMetInTurn, SameOrBefore, Route;
    var t' := Visit(t, active[0], nbr);
    forall q | Route(uni, src, nbr, q) && |q| == |t'.path[nbr]| ensures SameOrBefore(uni, t'.path[nbr], q) {
      FrontPathIsFirst(uni, src, visited, from, active, dist, t, done, nbr, q);
    }
    forall v | v in visited ensures v in t'.path && FirstOfShortest(uni, src, v, t'.path[v]) {
      assert FirstOfShortest(uni, src, v, t.path[v]);
    }
  }

  lemma VisitKeepsOrdered(uni: Universe, src: Name, visited: set<Name>, from: map<Name, Name>, active: seq<Name>,
                          dist: map<Name, nat>, t: Tree, i: nat)
    requires active != [] && i < |Links(uni, active[0])| && src in visited && src in dist && dist[src] == 0
    requires TreeOk(uni, src, visited, from, active, dist, t, Links(uni, active[0])[..i])
    requires active[0] in visited && active[0] in t.path && Links(uni, active[0])[i] !in visited
    requires forall v :: v in visited ==> Near(dist, active[0], v)
    requires forall y :: y in Links(uni, active[0])[..i] ==> y in visited
    ensures Ordered(uni, Visit(t, active[0], Links(uni, active[0])[i]))
  {
    var nbr := Links(uni, active[0])[i];
    var t' := Visit(t, active[0], nbr);
    forall v | v in t.order ensures v in t.path && v in visited && t'.path[v] == t.path[v] {
      assert FoundAlong(uni, src, from, dist, t.path, v);
    }
    hide AllFound, AllFirst, AllMetInTurn, Precedes;
    forall j, k | 0 <= j < k < |t.order| ensures MetBefore(uni, t', t.order[j], t.order[k]) {
      assert MetBefore(uni, t, t.order[j], t.order[k]);
    }
    forall j | 0 <= j < |t.order| ensures MetBefore(uni, t', t.order[j], nbr) {
      MetLast(uni, src, visited, from, active, dist, t, i, t.order[j]);
    }
  }

  lemma VisitKeepsTurns(uni: Universe, src: Name, visited: set<Name>, from: map<Name, Name>, active: seq<Name>,
                        t: Tree, i: nat)
    requires active != [] && i < |Links(uni, active[0])| && active[0] in t.path
    requires AllMetInTurn(src, visited, from, active, t, Links(uni, active[0])[..i])
    ensures var cur, nbr := active[0], Links(uni, active[0])[i];
      AllMetInTurn(src, visited + {nbr}, from[nbr := cur], active + [nbr], Visit(t, cur, nbr), Links(uni, cur)[..i + 1])
  {
    var cur, nbr, h := active[0], Links(uni, active[0])[i], |t.order| - |active|;
    var t', done := Visit(t, cur, nbr), Links(uni, cur)[..i];
    assert Links(uni, cur)[..i + 1] == done + [nbr];
    forall v | v in visited + {nbr} && v != src ensures MetInTurn(from[nbr := cur], t'.order, h, done + [nbr], v) {
      if v != nbr { assert MetInTurn(from, t.order, h, done, v); }
      assert t'.order[..h] == t.order[..h];
    }
  }

  ghost function Visit(t: Tree, cur: Name, nbr: Name): Tree
    requires cur in t.path
  {
    Tree(t.order + [nbr], t.path[nbr := t.path[cur] + [nbr]])
  }

  lemma RouteExtends(uni: Universe, src: Name, cur: Name, nbr: Name, p: seq<Name>)
    requires Route(uni, src, cur, p) && Linked(uni, cur, nbr)
    ensures Route(uni, src, nbr, p + [nbr])
  {
  }

  // ---- Route solver --------------------------------------------------------

  ghost predicate Shortest(uni: Universe, src: Name, dst: Name, route: seq<Name>) {
    Route(uni, src, dst, route) && forall p :: Route(uni, src, dst, p) ==> |route| <= |p|
  }

  /** Main result: the route is empty unless both names are known and a chain of links
      leads from source to destination; otherwise it is a shortest such chain, and among
      these the one that takes the earlier link wherever another one parts from it. */
  method SolveBeaconRoute(uni: Universe, src: Name, dst: Name) returns (route: seq<Name>)
    ensures route != [] <==> src in uni && dst in uni && Reachable(uni, src, dst)
    ensures route != [] ==> Shortest(uni, src, dst, route) && FirstOfShortest(uni, src, dst, route)
  {
    if src !in uni || dst !in uni { return []; }
    if src == dst {
      assert Route(uni, src, dst, [src]);
      assert FirstOfShortest(uni, src, dst, [src]);
      return [src];
    }
    var from: map<Name, Name> := map[];
    var visited, frontier := {src}, [src];
    ghost var dist: map<Name, nat> := map[src := 0];
    ghost var t := Tree([src], map[src := [src]]);
    StartTree(uni, src, from, dist);
    hide TreeOk, AllFound, AllFirst, FirstOfShortest;
    while frontier != []
      invariant SearchOk(uni, src, visited, from, frontier, dist)
      invariant TreeOk(uni, src, visited, from, frontier, dist, t, [])
      invariant dst !in visited && visited <= Names(uni, src)
      decreases |Names(uni, src) - visited|, |frontier|
    {
      var cur := frontier[0];
      var before := visited;
      var found;
      found, visited, from, frontier, dist, t := Expand(uni, src, dst, visited, from, frontier, dist, t);
      if found {
        route := Reconstruct(uni, src, dst, visited, from, dist, t);
        return;
      }
      Progress(Names(uni, src), before, visited);
    }
    forall p ensures !Route(uni, src, dst, p) {
      if Route(uni, src, dst, p) { PathsAreNotShorter(uni, src, visited, from, [], dist, p); }
    }
    route := [];
  }

  lemma Progress(all: set<Name>, before: set<Name>, after: set<Name>)
    requires before <= after <= all
    ensures before != after ==> |all - after| < |all - before|
  {
    if before != after {
      var x :| x in after && x !in before;
      assert all - after <= (all - before) - {x};
      SubsetCount(all - after, (all - before) - {x});
    }
  }

  lemma StartTree(uni: Universe, src: Name, from: map<Name, Name>, dist: map<Name, nat>)
    requires dist == map[src := 0]
    ensures TreeOk(uni, src, {src}, from, [src], dist, Tree([src], map[src := [src]]), [])
  {
    assert FirstOfShortest(uni, src, src, [src]);
    assert FoundAlong(uni, src, from, dist, map[src := [src]], src);
  }

  /** Takes the front name and visits its links in order, stopping at the destination. */
  method Expand(uni: Universe, src: Name, dst: Name, visited0: set<Name>, from0: map<Name, Name>, frontier0: seq<Name>,
                ghost dist0: map<Name, nat>, ghost t0: Tree)
    returns (found: bool, visited: set<Name>, from: map<Name, Name>, frontier: seq<Name>, ghost dist: map<Name, nat>,
             ghost t: Tree)
    requires SearchOk(uni, src, visited0, from0, frontier0, dist0) && frontier0 != []
    requires TreeOk(uni, src, visited0, from0, frontier0, dist0, t0, [])
    requires dst !in visited0 && visited0 <= Names(uni, src)
    ensures visited0 <= visited <= Names(uni, src)
    ensures !found ==> SearchOk(uni, src, visited, from, frontier, dist) && dst !in visited
    ensures !found ==> TreeOk(uni, src, visited, from, frontier, dist, t, [])
    ensures !found && visited == visited0 ==> |frontier| < |frontier0|
    ensures found ==> dst in dist && dist.Keys == visited && PredecessorsOk(uni, src, from, dist)
    ensures found ==> AllFound(uni, src, visited, from, dist, t) && AllFirst(uni, src, visited, t)
    ensures found ==> forall p :: Route(uni, src, dst, p) ==> dist[dst] + 1 <= |p|
  {
    hide SearchOk, TreeOk, AllFound, AllFirst, PredecessorsOk, Route, Names;
    found, visited, from, dist, t := false, visited0, from0, dist0, t0;
    var cur := frontier0[0];
    frontier := frontier0[1..];
    ghost var active := frontier0;
    var links := if cur in uni then uni[cur] else [];
    assert links == Links(uni, cur) && links[..0] == [];
    for i := 0 to |links|
      invariant !found && SearchOk(uni, src, visited, from, active, dist)
      invariant TreeOk(uni, src, visited, from, active, dist, t, links[..i])
      invariant active == [cur] + frontier
      invariant visited0 <= visited <= Names(uni, src) && dst !in visited
      invariant visited == visited0 ==> frontier == frontier0[1..]
      invariant forall j :: 0 <= j < i ==> Near(dist, cur, links[j])
    {
      var nbr := links[i];
      assert Linked(uni, cur, nbr);
      FrontFacts(uni, src, visited, from, active, dist);
      if nbr !in visited {
        VisitKeepsBoth(uni, src, visited, from, active, dist, t, i);
        if nbr == dst { UnvisitedIsFarther(uni, src, visited, from, active, dist, dst); }
        NamesSeen(uni, src, cur, nbr);
        visited := visited + {nbr};
        from := from[nbr := cur];
        dist, t := dist[nbr := dist[cur] + 1], Visit(t, cur, nbr);
        if nbr == dst {
          PredecessorsKnown(uni, src, visited, from, active + [nbr], dist, t, links[..i + 1]);
          found := true;
          return;
        }
        frontier := frontier + [nbr];
        active := active + [nbr];
      } else {
        SkipKeepsTree(uni, src, visited, from, active, dist, t, links[..i], links[..i + 1]);
      }
    }
    forall u | Linked(uni, cur, u) ensures Near(dist, cur, u) {
      var j :| 0 <= j < |links| && links[j] == u;
      assert Near(dist, cur, links[j]);
    }
    ExpandedKeeps(uni, src, visited, from, active, dist);
    ExpandedKeepsTree(uni, src, visited, from, active, dist, t, links[..|links|]);
    assert active[1..] == frontier;
  }

  lemma NamesSeen(uni: Universe, src: Name, cur: Name, nbr: Name)
    requires Linked(uni, cur, nbr)
    ensures nbr in Names(uni, src)
  {
  }

  lemma VisitKeepsBoth(uni: Universe, src: Name, visited: set<Name>, from: map<Name, Name>, active: seq<Name>,
                       dist: map<Name, nat>, t: Tree, i: nat)
    requires SearchOk(uni, src, visited, from, active, dist) && active != [] && i < |Links(uni, active[0])|
    requires TreeOk(uni, src, visited, from, active, dist, t, Links(uni, active[0])[..i])
    requires Links(uni, active[0])[i] !in visited
    requires forall j :: 0 <= j < i ==> Near(dist, active[0], Links(uni, active[0])[j])
    ensures var cur, nbr := active[0], Links(uni, active[0])[i];
      && cur in dist && cur in t.path
      && var visited', from' := visited + {nbr}, from[nbr := cur];
      var active', dist' := active + [nbr], dist[nbr := dist[cur] + 1];
      && SearchOk(uni, src, visited', from', active', dist')
      && TreeOk(uni, src, visited', from', active', dist', Visit(t, cur, nbr), Links(uni, cur)[..i + 1])
      && Near(dist', cur, nbr) && forall j :: 0 <= j < i ==> Near(dist', cur, Links(uni, cur)[j])
  {
    hide SearchOk, TreeOk;
    FrontFacts(uni, src, visited, from, active, dist);
    FrontInTree(uni, src, visited, from, active, dist, t, Links(uni, active[0])[..i]);
    VisitKeeps(uni, src, visited, from, active, dist, active[0], Links(uni, active[0])[i]);
    VisitKeepsTree(uni, src, visited, from, active, dist, t, i);
  }

  lemma FrontInTree(uni: Universe, src: Name, visited: set<Name>, from: map<Name, Name>, active: seq<Name>,
                    dist: map<Name, nat>, t: Tree, done: seq<Name>)
    requires TreeOk(uni, src, visited, from, active, dist, t, done) && active != []
    ensures active[0] in t.path && active[0] in dist
  {
    hide AllFirst, Ordered;
    assert active[0] == t.order[|t.order| - |active|];
    assert FoundAlong(uni, src, from, dist, t.path, active[0]);
  }

  lemma SkipKeepsTree(uni: Universe, src: Name, visited: set<Name>, from: map<Name, Name>, active: seq<Name>,
                      dist: map<Name, nat>, t: Tree, done: seq<Name>, more: seq<Name>)
    requires TreeOk(uni, src, visited, from, active, dist, t, done) && done <= more
    ensures TreeOk(uni, src, visited, from, active, dist, t, more)
  {
    hide AllFound, AllFirst, Ordered;
    forall v | v in visited && v != src ensures MetInTurn(from, t.order, |t.order| - |active|, more, v) {
      assert MetInTurn(from, t.order, |t.order| - |active|, done, v);
    }
  }

  lemma ExpandedKeepsTree(uni: Universe, src: Name, visited: set<Name>, from: map<Name, Name>, active: seq<Name>,
                          dist: map<Name, nat>, t: Tree, done: seq<Name>)
    requires TreeOk(uni, src, visited, from, active, dist, t, done) && active != []
    ensures TreeOk(uni, src, visited, from, active[1..], dist, t, [])
  {
    hide AllFound, AllFirst, Ordered;
    var h := |t.order| - |active|;
    assert t.order[..h + 1] == t.order[..h] + [t.order[h]];
    forall v | v in visited && v != src ensures MetInTurn(from, t.order, h + 1, [], v) {
      assert MetInTurn(from, t.order, h, done, v);
    }
  }

  lemma FrontFacts(uni: Universe, src: Name, visited: set<Name>, from: map<Name, Name>, active: seq<Name>,
                   dist: map<Name, nat>)
    requires SearchOk(uni, src, visited, from, active, dist) && active != []
    ensures active[0] in dist && visited == dist.Keys
    ensures forall v :: v in visited ==> Near(dist, active[0], v)
  {
  }

  lemma UnvisitedIsFarther(uni: Universe, src: Name, visited: set<Name>, from: map<Name, Name>, active: seq<Name>,
                           dist: map<Name, nat>, dst: Name)
    requires SearchOk(uni, src, visited, from, active, dist) && active != [] && dst !in visited
    requires active[0] in dist
    ensures forall p :: Route(uni, src, dst, p) ==> dist[active[0]] + 2 <= |p|
  {
    hide SearchOk;
    forall p | Route(uni, src, dst, p) ensures dist[active[0]] + 2 <= |p| {
      PathsAreNotShorter(uni, src, visited, from, active, dist, p);
    }
  }

  ghost predicate PredecessorsOk(uni: Universe, src: Name, from: map<Name, Name>, dist: map<Name, nat>) {
    src in dist && dist[src] == 0 && forall v :: v in dist && v != src ==> FoundFrom(uni, from, dist, v)
  }

  lemma PredecessorsKnown(uni: Universe, src: Name, visited: set<Name>, from: map<Name, Name>, active: seq<Name>,
                          dist: map<Name, nat>, t: Tree, done: seq<Name>)
    requires SearchOk(uni, src, visited, from, active, dist) && TreeOk(uni, src, visited, from, active, dist, t, done)
    ensures PredecessorsOk(uni, src, from, dist) && dist.Keys == visited
    ensures AllFound(uni, src, visited, from, dist, t) && AllFirst(uni, src, visited, t)
  {
    hide AllFound, AllFirst;
  }

  /** Walks the predecessors back from the destination and turns the walk around. */
  method Reconstruct(uni: Universe, src: Name, dst: Name, ghost visited: set<Name>, from: map<Name, Name>,
                     ghost dist: map<Name, nat>, ghost t: Tree)
    returns (path: seq<Name>)
    requires dst in dist && PredecessorsOk(uni, src, from, dist)
    requires dist.Keys == visited && AllFound(uni, src, visited, from, dist, t) && AllFirst(uni, src, visited, t)
    ensures Route(uni, src, dst, path) && |path| == dist[dst] + 1
    ensures FirstOfShortest(uni, src, dst, path)
  {
    hide AllFound, AllFirst, FirstOfShortest;
    var back, n := [dst], dst;
    while n != src
      invariant n in dist && back != [] && back[|back| - 1] == n && back[0] == dst
      invariant |back| + dist[n] == dist[dst] + 1
      invariant forall i :: 0 <= i < |back| ==> back[i] in dist
      invariant forall i :: 0 <= i < |back| - 1 ==> Follows(uni, src, from, back[i + 1], back[i])
      decreases dist[n]
    {
      assert FoundFrom(uni, from, dist, n);
      n := from[n];
      back := back + [n];
    }
    path := seq(|back|, i requires 0 <= i < |back| => back[|back| - 1 - i]);
    forall i | 0 <= i < |path| - 1 ensures Follows(uni, src, from, path[i], path[i + 1]) {
      var j := |back| - 2 - i;
      assert Follows(uni, src, from, back[j + 1], back[j]);
    }
    WalkIsTreePath(uni, src, visited, from, dist, t, path);
    TreePathIsFirst(uni, src, visited, t, dst);
  }

  /** v was first met over its link from u. */
  ghost predicate Follows(uni: Universe, src: Name, from: map<Name, Name>, u: Name, v: Name) {
    v != src && v in from && from[v] == u && Linked(uni, u, v)
  }

  lemma {:induction false} WalkIsTreePath(uni: Universe, src: Name, visited: set<Name>, from: map<Name, Name>,
                                          dist: map<Name, nat>, t: Tree, p: seq<Name>)
    requires AllFound(uni, src, visited, from, dist, t) && src in dist && dist[src] == 0
    requires p != [] && p[0] == src && forall i :: 0 <= i < |p| ==> p[i] in visited
    requires forall i :: 0 <= i < |p| - 1 ==> Follows(uni, src, from, p[i], p[i + 1])
    ensures p[|p| - 1] in t.path && t.path[p[|p| - 1]] == p
  {
    var m := |p| - 1;
    assert FoundAlong(uni, src, from, dist, t.path, p[m]);
    if m > 0 {
      assert Follows(uni, src, from, p[m - 1], p[m]);
      WalkIsTreePath(uni, src, visited, from, dist, t, p[..m]);
    }
  }

  lemma TreePathIsFirst(uni: Universe, src: Name, visited: set<Name>, t: Tree, v: Name)
    requires AllFirst(uni, src, visited, t) && v in visited
    ensures v in t.path && FirstOfShortest(uni, src, v, t.path[v])
  {
  }

  // ---- Reachable set -------------------------------------------------------

  /** Every known name that a chain of links from a known source leads to. */
  method ReachableBeacons(uni: Universe, src: Name) returns (reached: set<Name>)
    ensures forall n :: n in reached <==> src in uni && n in uni && Reachable(uni, src, n)
  {
    reached := {};
    if src !in uni { return; }
    var frontier := [src];
    reached := {src};
    assert Route(uni, src, src, [src]);
    while frontier != []
      invariant src in reached && reached <= uni.Keys
      invariant forall n :: n in reached ==> Reachable(uni, src, n)
      invariant forall i :: 0 <= i < |frontier| ==> frontier[i] in reached
      invariant forall v, u :: v in reached && v !in frontier && Linked(uni, v, u) && u in uni ==> u in reached
      decreases |uni.Keys - reached|, |frontier|
    {
      var before := reached;
      reached, frontier := ExpandReached(uni, src, reached, frontier);
      Progress(uni.Keys, before, reached);
    }
    forall n | n in uni && Reachable(uni, src, n) ensures n in reached {
      var p :| Route(uni, src, n, p);
      RouteStaysReached(uni, reached, p);
    }
  }

  method ExpandReached(uni: Universe, src: Name, reached0: set<Name>, frontier0: seq<Name>)
    returns (reached: set<Name>, frontier: seq<Name>)
    requires frontier0 != [] && src in reached0 && reached0 <= uni.Keys
    requires forall n :: n in reached0 ==> Reachable(uni, src, n)
    requires forall i :: 0 <= i < |frontier0| ==> frontier0[i] in reached0
    requires forall v, u :: v in reached0 && v !in frontier0 && Linked(uni, v, u) && u in uni ==> u in reached0
    ensures reached0 <= reached <= uni.Keys
    ensures reached == reached0 ==> |frontier| < |frontier0|
    ensures forall n :: n in reached ==> Reachable(uni, src, n)
    ensures forall i :: 0 <= i < |frontier| ==> frontier[i] in reached
    ensures forall v, u :: v in reached && v !in frontier && Linked(uni, v, u) && u in uni ==> u in reached
  {
    var cur := frontier0[0];
    reached, frontier := reached0, frontier0[1..];
    assert frontier0 == [cur] + frontier;
    var links := uni[cur];
    for i := 0 to |links|
      invariant reached0 <= reached <= uni.Keys
      invariant reached == reached0 ==> frontier == frontier0[1..]
      invariant forall n :: n in reached ==> Reachable(uni, src, n)
      invariant forall j :: 0 <= j < |frontier| ==> frontier[j] in reached
      invariant forall v :: v in reached && v !in frontier ==> v in reached0 && (v == cur || v !in frontier0)
      invariant forall j :: 0 <= j < i && links[j] in uni ==> links[j] in reached
    {
      var nbr := links[i];
      if nbr in uni && nbr !in reached {
        OneMoreHop(uni, src, cur, nbr);
        reached := reached + {nbr};
        frontier := frontier + [nbr];
      }
    }
    forall v, u | v in reached && v !in frontier && Linked(uni, v, u) && u in uni ensures u in reached {
      if v == cur {
        var j :| 0 <= j < |links| && links[j] == u;
      }
    }
  }

  lemma OneMoreHop(uni: Universe, src: Name, cur: Name, nbr: Name)
    requires Reachable(uni, src, cur) && Linked(uni, cur, nbr)
    ensures Reachable(uni, src, nbr)
  {
    var p :| Route(uni, src, cur, p);
    assert Route(uni, src, nbr, p + [nbr]);
  }

  lemma {:induction false} RouteStaysReached(uni: Universe, reached: set<Name>, p: seq<Name>)
    requires IsPath(uni, p) && p[0] in reached && p[|p| - 1] in uni
    requires forall v, u :: v in reached && Linked(uni, v, u) && u in uni ==> u in reached
    ensures p[|p| - 1] in reached
  {
    var k := |p| - 1;
    if k > 0 {
      assert Linked(uni, p[k - 1], p[k]);
      RouteStaysReached(uni, reached, p[..k]);
    }
  }

  /** The two searches agree on what can be reached. */
  method RouteAgreesWithReachable(uni: Universe, src: Name, dst: Name) returns (route: seq<Name>, reached: set<Name>)
    ensures route != [] <==> dst in reached
  {
    route := SolveBeaconRoute(uni, src, dst);
    reached := ReachableBeacons(uni, src);
  }
}
