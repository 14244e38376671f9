/** The breadth-first search inside CalculateRoute of scratch/common.h, on values: what the queue, the
    distances and the next-hop lists satisfy after each link the search looks at. */
module RouteSearch {
  import opened Collections
  import opened Routes

  /** The queue, the distances, and (for the proof only) one route to each node found. */
  datatype Search = Search(q: seq<Node>, dis: map<Node, nat>, tree: map<Node, seq<Node>>)

  /** The link from u to y has been looked at: u is finished, or u is at position i of the queue and
      y among its neighbours seen so far. */
  predicate Examined(s: Search, i: nat, done: set<Node>, seen: set<Node>, u: Node, y: Node) {
    u in done || (i < |s.q| && u == s.q[i] && y in seen)
  }

  ghost predicate TreeInv(net: Net, host: Node, s: Search) {
    && s.tree.Keys == s.dis.Keys
    && (forall x :: x in s.dis ==>
      IsRoute(net, host, s.tree[x]) && s.tree[x][|s.tree[x]| - 1] == x && |s.tree[x]| == s.dis[x] + 1)
  }

  ghost predicate QueueInv(net: Net, host: Node, s: Search, i: nat, done: set<Node>) {
    && i <= |s.q| && s.q != [] && s.q[0] == host && NoDuplicates(s.q)
    && host in s.dis && s.dis[host] == 0
    && (forall a :: 0 <= a < |s.q| ==> s.q[a] in s.dis && net.Forwards(host, s.q[a]) && (s.q[a] in done <==> a < i))
    && (forall x :: x in s.dis && net.Forwards(host, x) ==> x in s.q)
    && (forall u :: u in done ==> u in s.q)
    && (forall a, b :: 0 <= a < b < |s.q| ==> s.dis[s.q[a]] <= s.dis[s.q[b]])
    && (forall x :: x in s.dis && i < |s.q| ==> s.dis[x] <= s.dis[s.q[i]] + 1)
  }

  ghost predicate LinkInv(net: Net, s: Search, i: nat, done: set<Node>, seen: set<Node>) {
    forall u, y :: Examined(s, i, done, seen, u, y) && net.Up(u, y) ==>
      u in s.dis && y in s.dis && s.dis[y] <= s.dis[u] + 1
  }

  ghost predicate SearchInv(net: Net, host: Node, s: Search, i: nat, done: set<Node>, seen: set<Node>) {
    TreeInv(net, host, s) && QueueInv(net, host, s, i, done) && LinkInv(net, s, i, done, seen)
  }

  function Start(host: Node): Search {
    Search([host], map[host := 0], map[host := [host]])
  }

  function Discover(net: Net, s: Search, now: Node, y: Node): Search
    requires now in s.dis && now in s.tree
  {
    Search(if net.kind(y) != Host then s.q + [y] else s.q,
           s.dis[y := s.dis[now] + 1],
           s.tree[y := s.tree[now] + [y]])
  }

  lemma StartInv(net: Net, host: Node)
    ensures SearchInv(net, host, Start(host), 0, {}, {})
  {
  }

  lemma DiscoverTree(net: Net, host: Node, s: Search, now: Node, y: Node)
    requires TreeInv(net, host, s) && now in s.dis && y !in s.dis && net.Up(now, y) && net.Forwards(host, now)
    ensures TreeInv(net, host, Discover(net, s, now, y))
  {
    var p := s.tree[now];
    var longer := p + [y];
    forall k | 0 <= k < |longer| - 1 ensures net.Up(longer[k], longer[k + 1]) && net.Forwards(host, longer[k]) {
      if k < |p| - 1 { assert net.Up(p[k], p[k + 1]); }
    }
  }

  lemma AppendNew(q: seq<Node>, y: Node)
    requires NoDuplicates(q) && y !in q
    ensures NoDuplicates(q + [y])
  {
  }

  lemma DiscoverQueue(net: Net, host: Node, s: Search, i: nat, done: set<Node>, y: Node)
    requires TreeInv(net, host, s) && QueueInv(net, host, s, i, done) && i < |s.q| && y !in s.dis
    ensures QueueInv(net, host, Discover(net, s, s.q[i], y), i, done)
  {
    hide TreeInv, NoDuplicates;
    DiscoveredFrom(net, host, s, s.q[i]);
    var s' := Discover(net, s, s.q[i], y);
    assert y !in s.q;
    AppendNew(s.q, y);
    assert forall x :: x in s'.q <==> x in s.q || (x == y && net.kind(y) != Host);
  }

  lemma DiscoveredFrom(net: Net, host: Node, s: Search, now: Node)
    requires TreeInv(net, host, s) && now in s.dis
    ensures now in s.tree
  {
  }

  lemma DiscoverInv(net: Net, host: Node, s: Search, i: nat, done: set<Node>, seen: set<Node>, y: Node)
    requires SearchInv(net, host, s, i, done, seen) && i < |s.q|
    requires y !in s.dis && net.Up(s.q[i], y)
    ensures SearchInv(net, host, Discover(net, s, s.q[i], y), i, done, seen + {y})
  {
    DiscoverTree(net, host, s, s.q[i], y);
    DiscoverQueue(net, host, s, i, done, y);
  }

  lemma KnownInv(net: Net, host: Node, s: Search, i: nat, done: set<Node>, seen: set<Node>, y: Node)
    requires SearchInv(net, host, s, i, done, seen) && i < |s.q|
    requires y in s.dis || !net.Up(s.q[i], y)
    ensures SearchInv(net, host, s, i, done, seen + {y})
  {
    hide IsRoute;
  }

  lemma NextInv(net: Net, host: Node, s: Search, i: nat, done: set<Node>, seen: set<Node>)
    requires SearchInv(net, host, s, i, done, seen) && i < |s.q|
    requires forall y :: net.Up(s.q[i], y) ==> y in seen
    ensures SearchInv(net, host, s, i + 1, done + {s.q[i]}, {})
  {
    hide IsRoute;
  }

  // ---------- the distances at the end

  ghost predicate Finished(net: Net, host: Node, s: Search, done: set<Node>) {
    SearchInv(net, host, s, |s.q|, done, {})
  }

  lemma {:induction false} NoShorterRoute(net: Net, host: Node, s: Search, done: set<Node>, p: seq<Node>)
    requires Finished(net, host, s, done) && IsRoute(net, host, p)
    ensures p[|p| - 1] in s.dis && s.dis[p[|p| - 1]] <= |p| - 1
    decreases |p|
  {
    if |p| == 1 {
      assert p[0] == host;
    } else {
      var front := p[..|p| - 1];
      forall k | 0 <= k < |front| - 1 ensures net.Up(front[k], front[k + 1]) && net.Forwards(host, front[k]) {
        assert net.Up(p[k], p[k + 1]);
      }
      NoShorterRoute(net, host, s, done, front);
      var u := p[|p| - 2];
      assert net.Up(p[|p| - 2], p[|p| - 2 + 1]) && net.Forwards(host, u);
      var a :| 0 <= a < |s.q| && s.q[a] == u;
      assert Examined(s, |s.q|, done, {}, u, p[|p| - 1]);
    }
  }

  /** What a finished search says about the nodes it found. */
  lemma FinishedFacts(net: Net, host: Node, s: Search, done: set<Node>)
    requires Finished(net, host, s, done)
    ensures s.tree.Keys == s.dis.Keys
    ensures forall x :: x in s.dis ==>
      IsRoute(net, host, s.tree[x]) && s.tree[x][|s.tree[x]| - 1] == x && |s.tree[x]| == s.dis[x] + 1
    ensures forall u :: u in done <==> u in s.dis && net.Forwards(host, u)
  {
    hide IsRoute, LinkInv;
    forall u ensures u in done <==> u in s.dis && net.Forwards(host, u) {
      if u in s.dis && net.Forwards(host, u) {
        var a :| 0 <= a < |s.q| && s.q[a] == u;
      }
    }
  }

  /** dis is the distance map, and the tree routes are shortest. */
  lemma DistancesRight(net: Net, host: Node, s: Search, done: set<Node>)
    requires Finished(net, host, s, done)
    ensures forall x :: x in s.dis <==> Reached(net, host, x)
    ensures forall x :: x in s.dis ==> IsShortest(net, host, s.tree[x])
  {
    hide Finished;
    FinishedFacts(net, host, s, done);
    forall p | IsRoute(net, host, p) ensures p[|p| - 1] in s.dis && s.dis[p[|p| - 1]] <= |p| - 1 {
      NoShorterRoute(net, host, s, done, p);
    }
    forall x | x in s.dis ensures Reached(net, host, x) {
      assert IsRoute(net, host, s.tree[x]);
    }
  }

  // ---------- next hops

  /** u has been looked at as a last stop before x. */
  ghost predicate Cand(net: Net, s: Search, i: nat, done: set<Node>, seen: set<Node>, u: Node, x: Node) {
    && Examined(s, i, done, seen, u, x) && net.Up(u, x)
    && u in s.dis && x in s.dis && s.dis[u] + 1 == s.dis[x]
  }

  lemma CandIsPred(net: Net, host: Node, s: Search, done: set<Node>, u: Node, x: Node)
    requires Finished(net, host, s, done)
    requires Cand(net, s, |s.q|, done, {}, u, x)
    ensures IsPred(net, host, u, x)
  {
    hide Finished;
    DistancesRight(net, host, s, done);
    FinishedFacts(net, host, s, done);
    var p := s.tree[u] + [x];
    forall k | 0 <= k < |p| - 1 ensures net.Up(p[k], p[k + 1]) && net.Forwards(host, p[k]) {
      if k < |s.tree[u]| - 1 { assert net.Up(s.tree[u][k], s.tree[u][k + 1]); }
    }
    ShortestSameEnd(net, host, s.tree[x], p);
  }

  lemma PredIsCand(net: Net, host: Node, s: Search, done: set<Node>, u: Node, x: Node)
    requires Finished(net, host, s, done) && IsPred(net, host, u, x)
    ensures Cand(net, s, |s.q|, done, {}, u, x)
  {
    hide Finished;
    DistancesRight(net, host, s, done);
    FinishedFacts(net, host, s, done);
    var p :| IsShortest(net, host, p) && |p| >= 2 && p[|p| - 2] == u && p[|p| - 1] == x;
    var front := p[..|p| - 1];
    ShortestPrefix(net, host, p, |p| - 1);
    assert net.Up(p[|p| - 2], p[|p| - 2 + 1]) && net.Forwards(host, u);
    NoShorterRoute(net, host, s, done, p);
    NoShorterRoute(net, host, s, done, front);
    ShortestSameLength(net, host, p, s.tree[x]);
    ShortestSameLength(net, host, front, s.tree[u]);
  }

  lemma ShortestSameEnd(net: Net, host: Node, p: seq<Node>, q: seq<Node>)
    requires IsShortest(net, host, p) && IsRoute(net, host, q) && p[|p| - 1] == q[|q| - 1] && |p| == |q|
    ensures IsShortest(net, host, q)
  {
  }

  predicate HasNV(net: Net, list: seq<Node>) {
    exists u :: u in list && net.kind(u) == NVSwitch
  }

  /** What the code does to the next-hop list of a neighbour when `now` turns out to be a last stop
      before it. */
  function Listed(net: Net, list: seq<Node>, now: Node): seq<Node> {
    if HasNV(net, list) then (if net.kind(now) == NVSwitch then list + [now] else list)
    else if net.kind(now) == NVSwitch then [now]
    else list + [now]
  }

  /** The list holds the last stops looked at so far, or only the NVSwitches among them. */
  ghost predicate PrefersNV(net: Net, s: Search, i: nat, done: set<Node>, seen: set<Node>, x: Node, list: seq<Node>) {
    && NoDuplicates(list)
    && (forall u :: u in list ==> Cand(net, s, i, done, seen, u, x))
    && (forall u :: Cand(net, s, i, done, seen, u, x) ==> u in list || (net.kind(u) != NVSwitch && HasNV(net, list)))
    && (forall u :: u in list && HasNV(net, list) ==> net.kind(u) == NVSwitch)
  }

  /** The entry that makes switch w a destination at host x. */
  ghost predicate Serves(net: Net, s: Search, i: nat, done: set<Node>, seen: set<Node>, w: Node, x: Node) {
    net.kind(x) == Host && Cand(net, s, i, done, seen, w, x)
  }

  ghost predicate HopInv(net: Net, host: Node, s: Search, i: nat, done: set<Node>, seen: set<Node>, before: Hops,
                         hops: Hops) {
    && (forall x :: PrefersNV(net, s, i, done, seen, x, At(hops, x, host)))
    && (forall h, x :: net.kind(h) == Host && h != host ==> At(hops, x, h) == At(before, x, h))
    && (forall w, x :: net.kind(w) != Host ==>
      At(hops, x, w) == if At(before, x, w) != [] || Serves(net, s, i, done, seen, w, x) then [w] else [])
  }

  function Set(hops: Hops, x: Node, dst: Node, list: seq<Node>): Hops {
    hops[x := (if x in hops then hops[x] else map[])[dst := list]]
  }

  function AddLastStop(net: Net, host: Node, hops: Hops, now: Node, y: Node): Hops {
    var listed := Set(hops, y, host, Listed(net, At(hops, y, host), now));
    if net.kind(y) == Host && At(listed, y, now) == [] then Set(listed, y, now, [now]) else listed
  }

  lemma AtSet(hops: Hops, x: Node, dst: Node, list: seq<Node>)
    ensures forall y, d :: At(Set(hops, x, dst, list), y, d) == if y == x && d == dst then list else At(hops, y, d)
  {
  }

  lemma HopStart(net: Net, host: Node, hosts: set<Node>, before: Hops)
    requires net.kind(host) == Host && host !in hosts && RoutesFor(net, hosts, before)
    ensures HopInv(net, host, Start(host), 0, {}, {}, before, before)
  {
  }

  /** Only the links looked at matter, and a newly found node was at the end of none of them. */
  lemma SameCand(net: Net, host: Node, s: Search, i: nat, done: set<Node>, seen: set<Node>, y: Node, u: Node, x: Node)
    requires SearchInv(net, host, s, i, done, seen) && i < |s.q| && y !in s.dis
    ensures Cand(net, Discover(net, s, s.q[i], y), i, done, seen, u, x) <==> Cand(net, s, i, done, seen, u, x)
  {
  }

  lemma DiscoverHops(net: Net, host: Node, s: Search, i: nat, done: set<Node>, seen: set<Node>, y: Node, before: Hops,
                     hops: Hops)
    requires SearchInv(net, host, s, i, done, seen) && i < |s.q| && y !in s.dis
    requires HopInv(net, host, s, i, done, seen, before, hops)
    ensures HopInv(net, host, Discover(net, s, s.q[i], y), i, done, seen, before, hops)
  {
    hide IsRoute, HasNV, NoDuplicates, At, HopInv, Cand;
    var s' := Discover(net, s, s.q[i], y);
    forall u, x ensures Cand(net, s', i, done, seen, u, x) <==> Cand(net, s, i, done, seen, u, x) {
      SameCand(net, host, s, i, done, seen, y, u, x);
    }
    HopsByCand(net, host, s, s', i, i, done, done, seen, seen, before, hops);
  }

  /** The hop invariant depends on the search only through Cand. */
  lemma HopsByCand(net: Net, host: Node, s: Search, s': Search, i: nat, i': nat, done: set<Node>, done': set<Node>,
                   seen: set<Node>, seen': set<Node>, before: Hops, hops: Hops)
    requires forall u, x :: Cand(net, s', i', done', seen', u, x) <==> Cand(net, s, i, done, seen, u, x)
    requires HopInv(net, host, s, i, done, seen, before, hops)
    ensures HopInv(net, host, s', i', done', seen', before, hops)
  {
    hide Cand, HasNV, NoDuplicates, At;
    forall x ensures PrefersNV(net, s', i', done', seen', x, At(hops, x, host)) {
      assert PrefersNV(net, s, i, done, seen, x, At(hops, x, host));
    }
    forall w, x | net.kind(w) != Host
      ensures At(hops, x, w) == if At(before, x, w) != [] || Serves(net, s', i', done', seen', w, x) then [w] else []
    {
      assert Serves(net, s', i', done', seen', w, x) <==> Serves(net, s, i, done, seen, w, x);
    }
  }

  /** Looking at the link from now to y changes the last stops of y only, and only by now. */
  lemma CandStep(net: Net, s: Search, i: nat, done: set<Node>, seen: set<Node>, y: Node, u: Node, x: Node)
    requires i < |s.q|
    ensures Cand(net, s, i, done, seen + {y}, u, x) <==>
      || Cand(net, s, i, done, seen, u, x)
      || (u == s.q[i] && x == y && net.Up(u, x) && u in s.dis && x in s.dis && s.dis[u] + 1 == s.dis[x])
  {
  }

  lemma ListStep(net: Net, s: Search, i: nat, done: set<Node>, seen: set<Node>, y: Node, list: seq<Node>)
    requires i < |s.q| && PrefersNV(net, s, i, done, seen, y, list)
    requires s.q[i] !in done && y !in seen
    requires net.Up(s.q[i], y) && s.q[i] in s.dis && y in s.dis && s.dis[s.q[i]] + 1 == s.dis[y]
    ensures PrefersNV(net, s, i, done, seen + {y}, y, Listed(net, list, s.q[i]))
    ensures Listed(net, list, s.q[i]) != []
  {
    var now := s.q[i];
    forall u ensures Cand(net, s, i, done, seen + {y}, u, y) <==> Cand(net, s, i, done, seen, u, y) || u == now {
      CandStep(net, s, i, done, seen, y, u, y);
    }
    assert now !in list;
    var list' := Listed(net, list, now);
    assert forall u :: u in list' ==> u in list || u == now;
    assert net.kind(now) == NVSwitch ==> now in list' && HasNV(net, list');
  }

  /** Looking at the link from now to y, with now a last stop before y. */
  ghost predicate Extends(net: Net, s: Search, i: nat, done: set<Node>, seen: set<Node>, y: Node)
    requires i < |s.q|
  {
    forall u, x :: Cand(net, s, i, done, seen + {y}, u, x) <==>
      Cand(net, s, i, done, seen, u, x) || (u == s.q[i] && x == y)
  }

  lemma ExtendLists(net: Net, host: Node, s: Search, i: nat, done: set<Node>, seen: set<Node>, y: Node, hops: Hops,
                    hops': Hops)
    requires i < |s.q| && Extends(net, s, i, done, seen, y)
    requires forall x :: PrefersNV(net, s, i, done, seen, x, At(hops, x, host))
    requires PrefersNV(net, s, i, done, seen + {y}, y, At(hops', y, host))
    requires forall x :: x != y ==> At(hops', x, host) == At(hops, x, host)
    ensures forall x :: PrefersNV(net, s, i, done, seen + {y}, x, At(hops', x, host))
  {
    hide HasNV, NoDuplicates, At, Cand;
    forall x | x != y ensures PrefersNV(net, s, i, done, seen + {y}, x, At(hops', x, host)) {
      assert PrefersNV(net, s, i, done, seen, x, At(hops, x, host));
    }
  }

  lemma ExtendServes(net: Net, host: Node, s: Search, i: nat, done: set<Node>, seen: set<Node>, y: Node, before: Hops,
                     hops: Hops)
    requires net.kind(host) == Host && i < |s.q| && Extends(net, s, i, done, seen, y) && net.Forwards(host, s.q[i])
    requires HopInv(net, host, s, i, done, seen, before, hops)
    ensures var hops' := AddLastStop(net, host, hops, s.q[i], y);
      && (forall x :: x != y ==> At(hops', x, host) == At(hops, x, host))
      && At(hops', y, host) == Listed(net, At(hops, y, host), s.q[i])
      && (forall h, x :: net.kind(h) == Host && h != host ==> At(hops', x, h) == At(before, x, h))
      && (forall w, x :: net.kind(w) != Host ==>
        At(hops', x, w) == if At(before, x, w) != [] || Serves(net, s, i, done, seen + {y}, w, x) then [w] else [])
  {
    hide PrefersNV, HasNV, At, Cand, Set;
    var now := s.q[i];
    var list := Listed(net, At(hops, y, host), now);
    ListedSome(net, At(hops, y, host), now);
    hide Listed;
    AtSet(hops, y, host, list);
    AtSet(Set(hops, y, host, list), y, now, [now]);
  }

  lemma ListedSome(net: Net, list: seq<Node>, now: Node)
    ensures Listed(net, list, now) != []
  {
  }

  lemma LinkHops(net: Net, host: Node, s: Search, i: nat, done: set<Node>, seen: set<Node>, y: Node, before: Hops,
                 hops: Hops)
    requires net.kind(host) == Host
    requires SearchInv(net, host, s, i, done, seen) && i < |s.q| && y !in seen && y in s.dis && net.Up(s.q[i], y)
    requires HopInv(net, host, s, i, done, seen, before, hops)
    ensures HopInv(net, host, s, i, done, seen + {y}, before,
      if s.dis[s.q[i]] + 1 == s.dis[y] then AddLastStop(net, host, hops, s.q[i], y) else hops)
  {
    hide HasNV, NoDuplicates, At, Listed, IsRoute, Set, Cand, AddLastStop, LinkInv, PrefersNV;
    var now := s.q[i];
    forall u, x ensures Cand(net, s, i, done, seen + {y}, u, x) <==>
      Cand(net, s, i, done, seen, u, x) || (u == now && x == y && s.dis[now] + 1 == s.dis[y])
    {
      CandStep(net, s, i, done, seen, y, u, x);
    }
    if s.dis[now] + 1 != s.dis[y] {
      HopsByCand(net, host, s, s, i, i, done, done, seen, seen + {y}, before, hops);
    } else {
      ListStep(net, s, i, done, seen, y, At(hops, y, host));
      ExtendServes(net, host, s, i, done, seen, y, before, hops);
      ExtendLists(net, host, s, i, done, seen, y, hops, AddLastStop(net, host, hops, now, y));
    }
  }

  lemma SkipHops(net: Net, host: Node, s: Search, i: nat, done: set<Node>, seen: set<Node>, y: Node, before: Hops,
                 hops: Hops)
    requires i < |s.q| && !net.Up(s.q[i], y)
    requires HopInv(net, host, s, i, done, seen, before, hops)
    ensures HopInv(net, host, s, i, done, seen + {y}, before, hops)
  {
    hide HopInv;
    HopsByCand(net, host, s, s, i, i, done, done, seen, seen + {y}, before, hops);
  }

  lemma NextHops(net: Net, host: Node, s: Search, i: nat, done: set<Node>, seen: set<Node>, before: Hops, hops: Hops)
    requires i < |s.q| && SearchInv(net, host, s, i, done, seen)
    requires forall y :: net.Up(s.q[i], y) ==> y in seen
    requires HopInv(net, host, s, i, done, seen, before, hops)
    ensures HopInv(net, host, s, i + 1, done + {s.q[i]}, {}, before, hops)
  {
    hide HopInv, IsRoute;
    HopsByCand(net, host, s, s, i, i + 1, done, done + {s.q[i]}, seen, {}, before, hops);
  }

  /** At the end of the search the lists are the next hops, whatever order the links were looked at. */
  lemma HopsRight(net: Net, host: Node, s: Search, done: set<Node>, hosts: set<Node>, before: Hops, hops: Hops)
    requires Finished(net, host, s, done) && net.kind(host) == Host && host !in hosts
    requires RoutesFor(net, hosts, before) && (forall h :: h in hosts ==> net.kind(h) == Host)
    requires HopInv(net, host, s, |s.q|, done, {}, before, hops)
    ensures RoutesFor(net, hosts + {host}, hops)
  {
    hide Finished, IsPred, Cand, At, NoDuplicates;
    forall u, x ensures Cand(net, s, |s.q|, done, {}, u, x) <==> IsPred(net, host, u, x) {
      if Cand(net, s, |s.q|, done, {}, u, x) { CandIsPred(net, host, s, done, u, x); }
      if IsPred(net, host, u, x) { PredIsCand(net, host, s, done, u, x); }
    }
    forall x ensures ListsNextHops(net, host, x, At(hops, x, host)) {
      var list := At(hops, x, host);
      assert PrefersNV(net, s, |s.q|, done, {}, x, list);
      assert HasNV(net, list) <==> HasNVPred(net, host, x);
    }
    forall w, x | net.kind(w) != Host
      ensures At(hops, x, w) == if ServesHost(net, hosts + {host}, w, x) then [w] else []
    {
      assert At(before, x, w) == if ServesHost(net, hosts, w, x) then [w] else [];
      assert ServesHost(net, hosts + {host}, w, x) <==>
        ServesHost(net, hosts, w, x) || Serves(net, s, |s.q|, done, {}, w, x) by {
        if ServesHost(net, hosts, w, x) {
          var h :| h in hosts && IsPred(net, h, w, x);
          assert h in hosts + {host};
        }
        if Serves(net, s, |s.q|, done, {}, w, x) {
          assert host in hosts + {host};
        }
      }
    }
  }
}
