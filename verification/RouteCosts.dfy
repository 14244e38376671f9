/** The search of CalculateRoute in scratch/common.h as a whole: routes, next hops and costs together,
    one lemma for each thing that can happen at a link. */
module RouteCosts {
  import opened Collections
  import opened MachineInts
  import opened PathCosts
  import opened Routes
  import opened RouteSearch

  /** Along one and the same shortest route to x: delay is the sum of the delays of its links, txDelay the sum of the
      times its links take to send a packet, and bw the least rate of its links. */
  ghost predicate CostsAlong(net: Net, payload: nat, host: Node, x: Node, delay: nat, txDelay: nat, bw: nat) {
    exists p, delays, times ::
      && IsShortest(net, host, p) && p[|p| - 1] == x
      && AreDelays(net.links, p, delays) && delay == Sum(delays) % U64
      && AreSendingTimes(net.links, payload, p, times) && txDelay == Sum(times) % U64
      && IsLeastRate(net.links, p, bw)
  }

  lemma TreeCosts(net: Net, payload: nat, host: Node, p: seq<Node>)
    requires ValidRates(net.links) && IsShortest(net, host, p)
    ensures CostsAlong(net, payload, host, p[|p| - 1],
      DelayOf(net.links, p) % U64, TxDelayOf(net.links, payload, p) % U64, BwOf(net.links, p))
  {
    hide AreDelays, AreSendingTimes, IsLeastRate, DelayOf, TxDelayOf, BwOf;
    var delays := DelayIsSum(net.links, p);
    var times := TxDelayIsSum(net.links, payload, p);
    BwIsLeastRate(net.links, p);
  }

  /** All nodes a search can come across. */
  ghost function Universe(host: Node, links: Links): set<Node> {
    {host} + set a, b | a in links && b in links[a] :: b
  }

  ghost predicate StaysInside(host: Node, links: Links, s: Search) {
    forall x :: x in s.dis ==> x in Universe(host, links)
  }

  lemma QueueFits(net: Net, host: Node, s: Search, i: nat, done: set<Node>)
    requires QueueInv(net, host, s, i, done) && StaysInside(host, net.links, s)
    ensures |s.q| <= |Universe(host, net.links)|
  {
    DistinctFit(s.q, Universe(host, net.links));
  }

  /** Everything the search keeps while it looks at the links of queue position i. */
  ghost predicate Running(net: Net, payload: nat, host: Node, s: Search, i: nat, done: set<Node>, seen: set<Node>,
                          before: Hops, hops: Hops, c: Costs) {
    && net.kind(host) == Host && ValidRates(net.links)
    && SearchInv(net, host, s, i, done, seen) && StaysInside(host, net.links, s)
    && HopInv(net, host, s, i, done, seen, before, hops)
    && CostInv(net.links, payload, s, c)
  }

  lemma SearchStart(net: Net, payload: nat, host: Node, hosts: set<Node>, before: Hops)
    requires net.kind(host) == Host && host !in hosts && ValidRates(net.links)
    requires RoutesFor(net, hosts, before)
    ensures Running(net, payload, host, Start(host), 0, {}, {}, before, before,
      Costs(map[host := 0], map[host := 0], map[host := U64 - 1]))
    ensures |Universe(host, net.links)| >= 1
  {
    hide HopInv, SearchInv, RoutesFor;
    StartInv(net, host);
    HopStart(net, host, hosts, before);
    assert host in Universe(host, net.links);
  }

  lemma SkipLink(net: Net, payload: nat, host: Node, s: Search, i: nat, done: set<Node>, seen: set<Node>,
                 before: Hops, hops: Hops, c: Costs, y: Node)
    requires Running(net, payload, host, s, i, done, seen, before, hops, c)
    requires i < |s.q| && !net.Up(s.q[i], y)
    ensures Running(net, payload, host, s, i, done, seen + {y}, before, hops, c)
  {
    hide TreeInv, QueueInv, HopInv, CostInv;
    KnownInv(net, host, s, i, done, seen, y);
    SkipHops(net, host, s, i, done, seen, y, before, hops);
  }

  lemma FindNode(net: Net, payload: nat, host: Node, s: Search, i: nat, done: set<Node>, seen: set<Node>,
                 before: Hops, hops: Hops, c: Costs, y: Node)
    requires Running(net, payload, host, s, i, done, seen, before, hops, c)
    requires i < |s.q| && net.Up(s.q[i], y) && y !in s.dis
    ensures s.q[i] in s.dis && s.q[i] in s.tree && s.dis.Keys == c.delay.Keys == c.txDelay.Keys == c.bw.Keys
    ensures net.links[s.q[i]][y].bw > 0
    ensures Running(net, payload, host, Discover(net, s, s.q[i], y), i, done, seen, before, hops,
      FoundOver(payload, c, s.q[i], y, net.links[s.q[i]][y]))
    ensures |Discover(net, s, s.q[i], y).q| <= |Universe(host, net.links)|
  {
    hide SearchInv, HopInv, FoundOver, CostInv, StaysInside, Universe;
    var now := s.q[i];
    FoundNode(net, host, s, i, done, seen, y);
    assert Step(net.links, now, y) == net.links[now][y];
    DiscoverHops(net, host, s, i, done, seen, y, before, hops);
    DiscoverCosts(net, payload, s, c, now, y);
  }

  lemma FoundNode(net: Net, host: Node, s: Search, i: nat, done: set<Node>, seen: set<Node>, y: Node)
    requires SearchInv(net, host, s, i, done, seen) && StaysInside(host, net.links, s)
    requires i < |s.q| && net.Up(s.q[i], y) && y !in s.dis
    ensures s.q[i] in s.dis && s.q[i] in s.tree
    ensures s.tree[s.q[i]] != [] && s.tree[s.q[i]][|s.tree[s.q[i]]| - 1] == s.q[i]
    ensures SearchInv(net, host, Discover(net, s, s.q[i], y), i, done, seen)
    ensures StaysInside(host, net.links, Discover(net, s, s.q[i], y))
    ensures |Discover(net, s, s.q[i], y).q| <= |Universe(host, net.links)|
  {
    hide IsRoute, NoDuplicates;
    DiscoverInv(net, host, s, i, done, seen, y);
    QueueFits(net, host, Discover(net, s, s.q[i], y), i, done);
  }

  lemma TakeLink(net: Net, payload: nat, host: Node, s: Search, i: nat, done: set<Node>, seen: set<Node>,
                 before: Hops, hops: Hops, c: Costs, y: Node)
    requires Running(net, payload, host, s, i, done, seen, before, hops, c)
    requires i < |s.q| && net.Up(s.q[i], y) && y in s.dis && y !in seen
    ensures s.q[i] in s.dis
    ensures Running(net, payload, host, s, i, done, seen + {y}, before,
      if s.dis[s.q[i]] + 1 == s.dis[y] then AddLastStop(net, host, hops, s.q[i], y) else hops, c)
    ensures net.kind(host) == Host && (s.q[i] == host || net.kind(s.q[i]) != Host)
  {
    hide IsRoute, HopInv, NoDuplicates, CostInv, AddLastStop, Universe;
    KnownInv(net, host, s, i, done, seen, y);
    LinkHops(net, host, s, i, done, seen, y, before, hops);
    assert net.Forwards(host, s.q[i]);
  }

  lemma NextNode(net: Net, payload: nat, host: Node, s: Search, i: nat, done: set<Node>, seen: set<Node>,
                 before: Hops, hops: Hops, c: Costs)
    requires Running(net, payload, host, s, i, done, seen, before, hops, c)
    requires i < |s.q| && forall y :: net.Up(s.q[i], y) ==> y in seen
    ensures Running(net, payload, host, s, i + 1, done + {s.q[i]}, {}, before, hops, c)
  {
    hide TreeInv, QueueInv, HopInv, CostInv;
    NextInv(net, host, s, i, done, seen);
    NextHops(net, host, s, i, done, seen, before, hops);
  }

  lemma SearchDone(net: Net, payload: nat, host: Node, s: Search, done: set<Node>, hosts: set<Node>,
                   before: Hops, hops: Hops, c: Costs)
    requires Running(net, payload, host, s, |s.q|, done, {}, before, hops, c)
    requires RoutesFor(net, hosts, before) && host !in hosts && forall h :: h in hosts ==> net.kind(h) == Host
    ensures RoutesFor(net, hosts + {host}, hops)
    ensures c.delay.Keys == c.txDelay.Keys == c.bw.Keys
    ensures forall x :: x in c.delay <==> Reached(net, host, x)
    ensures forall x :: x in c.delay ==> CostsAlong(net, payload, host, x, c.delay[x], c.txDelay[x], c.bw[x])
  {
    hide QueueInv, HopInv, DelayOf, TxDelayOf, BwOf, CostsAlong, Reached, RoutesFor;
    DistancesRight(net, host, s, done);
    HopsRight(net, host, s, done, hosts, before, hops);
    forall x | x in c.delay ensures CostsAlong(net, payload, host, x, c.delay[x], c.txDelay[x], c.bw[x]) {
      assert IsShortest(net, host, s.tree[x]) && s.tree[x][|s.tree[x]| - 1] == x;
      TreeCosts(net, payload, host, s.tree[x]);
    }
  }
}
