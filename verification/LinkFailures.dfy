/** What link failures do to the topology of scratch/common.h and to the routes over it. */
module LinkFailures {
  import opened ForwardingTables
  import opened Collections
  import opened PathCosts
  import opened Routes

  ghost predicate Symmetric(links: Links) {
    forall a, b :: IsUp(links, a, b) <==> IsUp(links, b, a)
  }

  /** Interfaces of one node have different indices. */
  ghost predicate DistinctIndices(links: Links) {
    forall a, b, c :: a in links && b in links[a] && c in links[a] && links[a][b].idx == links[a][c].idx ==> b == c
  }

  predicate HasLink(links: Links, a: Node, b: Node) {
    a in links && b in links[a]
  }

  function Lower(links: Links, a: Node, b: Node): Links {
    if a in links && b in links[a] then links[a := links[a][b := links[a][b].(up := false)]] else links
  }

  /** What TakeDownLink does to the links. */
  function Cut(links: Links, a: Node, b: Node): Links {
    if IsUp(links, a, b) then Lower(Lower(links, a, b), b, a) else links
  }

  function CutAll(links: Links, cuts: seq<(Node, Node)>): Links {
    if cuts == [] then links
    else
      var (a, b) := cuts[|cuts| - 1];
      Cut(CutAll(links, cuts[..|cuts| - 1]), a, b)
  }

  /** The links of `cuts` are down, in both directions. Nothing else has changed: not which links there are, and no
      index, delay or rate. */
  ghost predicate OnlyDown(before: Links, after: Links, cuts: seq<(Node, Node)>) {
    && (forall x, y :: HasLink(after, x, y) <==> HasLink(before, x, y))
    && (forall x, y :: HasLink(before, x, y) ==>
      HasLink(after, x, y) && after[x][y] ==
        before[x][y].(up := before[x][y].up && (x, y) !in cuts && (y, x) !in cuts))
  }

  lemma LowerOnly(links: Links, a: Node, b: Node)
    ensures forall x, y :: IsUp(Lower(links, a, b), x, y) <==> IsUp(links, x, y) && (x, y) != (a, b)
    ensures forall x, y :: Step(Lower(links, a, b), x, y).bw == Step(links, x, y).bw
    ensures forall x, y :: HasLink(Lower(links, a, b), x, y) <==> HasLink(links, x, y)
    ensures forall x, y :: HasLink(links, x, y) ==>
      Lower(links, a, b)[x][y] == links[x][y].(up := links[x][y].up && (x, y) != (a, b))
    ensures forall x, y :: Step(Lower(links, a, b), x, y).idx == Step(links, x, y).idx
    ensures DistinctIndices(links) ==> DistinctIndices(Lower(links, a, b))
  {
  }

  lemma CutOnly(links: Links, a: Node, b: Node)
    requires Symmetric(links)
    ensures Symmetric(Cut(links, a, b))
    ensures forall x, y :: IsUp(Cut(links, a, b), x, y) <==> IsUp(links, x, y) && (x, y) != (a, b) && (x, y) != (b, a)
    ensures ValidRates(links) ==> ValidRates(Cut(links, a, b))
    ensures DistinctIndices(links) ==> DistinctIndices(Cut(links, a, b))
  {
    hide Lower, DistinctIndices;
    LowerOnly(links, a, b);
    LowerOnly(Lower(links, a, b), b, a);
    var cut := Cut(links, a, b);
    forall x, y ensures IsUp(cut, x, y) <==> IsUp(links, x, y) && (x, y) != (a, b) && (x, y) != (b, a) {
    }
    forall x, y ensures IsUp(cut, x, y) <==> IsUp(cut, y, x) {
    }
  }

  lemma CutOnlyDown(links: Links, a: Node, b: Node)
    requires Symmetric(links)
    ensures OnlyDown(links, Cut(links, a, b), [(a, b)])
  {
    hide Lower, DistinctIndices, Step;
    assert IsUp(links, a, b) <==> IsUp(links, b, a);
    hide Symmetric;
    var cut, cuts := Cut(links, a, b), [(a, b)];
    if IsUp(links, a, b) {
      LowerOnly(links, a, b);
      LowerOnly(Lower(links, a, b), b, a);
    }
    forall x, y | HasLink(links, x, y)
      ensures HasLink(cut, x, y)
      ensures cut[x][y] == links[x][y].(up := links[x][y].up && (x, y) !in cuts && (y, x) !in cuts)
    {
      assert (x, y) in cuts <==> (x, y) == (a, b);
      assert (y, x) in cuts <==> (y, x) == (a, b);
    }
  }

  lemma OnlyDownTwice(links: Links, mid: Links, after: Links, cuts: seq<(Node, Node)>, more: seq<(Node, Node)>)
    requires OnlyDown(links, mid, cuts) && OnlyDown(mid, after, more)
    ensures OnlyDown(links, after, cuts + more)
  {
  }

  lemma OnlyDownKeeps(before: Links, after: Links, cuts: seq<(Node, Node)>)
    requires OnlyDown(before, after, cuts)
    ensures Symmetric(before) ==> Symmetric(after)
    ensures DistinctIndices(before) ==> DistinctIndices(after)
    ensures forall x, y :: IsUp(after, x, y) <==> IsUp(before, x, y) && (x, y) !in cuts && (y, x) !in cuts
  {
    forall x, y ensures IsUp(after, x, y) <==> IsUp(before, x, y) && (x, y) !in cuts && (y, x) !in cuts {
      assert HasLink(after, x, y) <==> HasLink(before, x, y);
    }
    if DistinctIndices(before) {
      forall a, b, c | a in after && b in after[a] && c in after[a] && after[a][b].idx == after[a][c].idx
        ensures b == c
      {
        assert HasLink(after, a, b) && HasLink(after, a, c);
        assert HasLink(before, a, b) && HasLink(before, a, c);
      }
    }
  }

  /** After any sequence of failures exactly the links that failed are down, in both directions, and nothing else has
      changed; the order of the failures and repeated failures make no difference. */
  lemma {:induction false} CutAllOnly(links: Links, cuts: seq<(Node, Node)>)
    requires Symmetric(links)
    ensures OnlyDown(links, CutAll(links, cuts), cuts)
    ensures Symmetric(CutAll(links, cuts))
    ensures DistinctIndices(links) ==> DistinctIndices(CutAll(links, cuts))
    ensures forall x, y ::
      IsUp(CutAll(links, cuts), x, y) <==> IsUp(links, x, y) && (x, y) !in cuts && (y, x) !in cuts
  {
    hide OnlyDown, Cut, Symmetric, DistinctIndices, IsUp;
    if cuts == [] {
      NothingDown(links);
    } else {
      var front := cuts[..|cuts| - 1];
      var (a, b) := cuts[|cuts| - 1];
      CutAllOnly(links, front);
      CutOnlyDown(CutAll(links, front), a, b);
      OnlyDownTwice(links, CutAll(links, front), CutAll(links, cuts), front, [(a, b)]);
      assert cuts == front + [(a, b)];
    }
    OnlyDownKeeps(links, CutAll(links, cuts), cuts);
  }

  lemma NothingDown(links: Links)
    ensures OnlyDown(links, links, [])
  {
  }

  /** The next hops depend only on which links are up. */
  lemma SameUpSameHops(net: Net, net': Net, host: Node)
    requires net.kind == net'.kind && forall a, b :: net.Up(a, b) <==> net'.Up(a, b)
    ensures forall u, x :: IsNextHop(net, host, u, x) <==> IsNextHop(net', host, u, x)
  {
    assert forall p :: IsRoute(net, host, p) <==> IsRoute(net', host, p);
    assert forall p :: IsShortest(net, host, p) <==> IsShortest(net', host, p);
    forall u, x ensures IsPred(net, host, u, x) <==> IsPred(net', host, u, x) {
      if p :| IsShortest(net, host, p) && |p| >= 2 && p[|p| - 2] == u && p[|p| - 1] == x {
        assert IsShortest(net', host, p);
      }
      if p :| IsShortest(net', host, p) && |p| >= 2 && p[|p| - 2] == u && p[|p| - 1] == x {
        assert IsShortest(net, host, p);
      }
    }
    assert forall x :: HasNVPred(net, host, x) <==> HasNVPred(net', host, x);
  }

  /** Two orders of the same failures lead to the same next hops. */
  lemma FailureOrderIrrelevant(kind: Node -> Kind, links: Links, cuts: seq<(Node, Node)>, cuts': seq<(Node, Node)>,
                               host: Node)
    requires Symmetric(links)
    requires forall a, b :: (a, b) in cuts || (b, a) in cuts <==> (a, b) in cuts' || (b, a) in cuts'
    ensures forall u, x :: IsNextHop(Net(kind, CutAll(links, cuts)), host, u, x)
                      <==> IsNextHop(Net(kind, CutAll(links, cuts')), host, u, x)
  {
    hide IsNextHop, CutAll;
    CutAllOnly(links, cuts);
    CutAllOnly(links, cuts');
    var net, net' := Net(kind, CutAll(links, cuts)), Net(kind, CutAll(links, cuts'));
    forall a, b ensures net.Up(a, b) <==> net'.Up(a, b) {
    }
    SameUpSameHops(net, net', host);
  }

  /** Every listed next hop is the far end of a link that is up. */
  lemma HopsAreUp(net: Net, hosts: set<Node>, hops: Hops, x: Node, dst: Node, u: Node)
    requires RoutesFor(net, hosts, hops) && Symmetric(net.links) && u in At(hops, x, dst)
    ensures net.Up(x, u)
  {
    var h: Node;
    if dst in hosts {
      h := dst;
      assert ListsNextHops(net, h, x, At(hops, x, h));
      assert IsNextHop(net, h, u, x);
    } else {
      assert net.kind(dst) != Host;
      assert At(hops, x, dst) == [dst];
      h :| h in hosts && IsPred(net, h, dst, x);
    }
    var p :| IsShortest(net, h, p) && |p| >= 2 && p[|p| - 2] == u && p[|p| - 1] == x;
    assert net.Up(p[|p| - 2], p[|p| - 2 + 1]);
    assert IsUp(net.links, u, x) && IsUp(net.links, x, u);
  }

  /** A routing pass enters the interface to y exactly if y is listed as a next hop and the table is the one
      for that next hop. */
  lemma EntryIffHop(net: Net, hosts: set<Node>, hops: Hops, slot: Slot, x: Node, dst: Node, y: Node)
    requires RoutesFor(net, hosts, hops) && Symmetric(net.links) && DistinctIndices(net.links)
    requires HasLink(net.links, x, y)
    ensures net.links[x][y].idx in Entries(net, slot, x, At(hops, x, dst)) <==>
      y in At(hops, x, dst) && Uses(net, slot, x, y)
  {
    hide RoutesFor, Symmetric, Entries, At;
    var idx := net.links[x][y].idx;
    EntriesIff(net, slot, x, At(hops, x, dst), idx);
    forall u | u in At(hops, x, dst) && Step(net.links, x, u).idx == idx ensures u == y {
      HopsAreUp(net, hosts, hops, x, dst, u);
    }
  }

  /** In installed tables no entry of a switch, an NVSwitch or a host uses a link that is down. */
  lemma InstalledTablesAvoidDownLinks(net: Net, nodes: seq<Node>, hosts: set<Node>, hops: Hops, t: AllTables,
                                      slot: Slot, x: Node, dst: Node, y: Node)
    requires RoutesFor(net, hosts, hops) && Installed(net, nodes, hops, t)
    requires Symmetric(net.links) && DistinctIndices(net.links)
    requires x in nodes && IsCleared(net, slot, x) && HasLink(net.links, x, y)
    requires net.links[x][y].idx in Entry(t.At(slot), x, dst)
    ensures net.links[x][y].up
  {
    hide RoutesFor, Symmetric, DistinctIndices, Entries, Entry;
    EntryIffHop(net, hosts, hops, slot, x, dst, y);
    HopsAreUp(net, hosts, hops, x, dst, y);
  }

  // ---------- forwarding by the installed tables

  /** Some cleared-and-filled table of x has an entry for dst that leads to y. */
  ghost predicate ForwardsTo(net: Net, t: AllTables, x: Node, dst: Node, y: Node) {
    HasLink(net.links, x, y) && exists slot ::
      IsCleared(net, slot, x) && net.links[x][y].idx in Entry(t.At(slot), x, dst)
  }

  /** No table of x has a usable entry for dst. */
  ghost predicate Stops(net: Net, t: AllTables, x: Node, dst: Node) {
    forall y :: !ForwardsTo(net, t, x, dst, y)
  }

  lemma TablesAreNextHops(net: Net, nodes: seq<Node>, hosts: set<Node>, hops: Hops, t: AllTables, x: Node, dst: Node,
                          y: Node)
    requires RoutesFor(net, hosts, hops) && Installed(net, nodes, hops, t)
    requires Symmetric(net.links) && DistinctIndices(net.links) && x in nodes
    ensures ForwardsTo(net, t, x, dst, y) <==> y in At(hops, x, dst)
  {
    hide RoutesFor, Symmetric, DistinctIndices, Entries, Entry, At;
    if y in At(hops, x, dst) {
      HopsAreUp(net, hosts, hops, x, dst, y);
    }
    if HasLink(net.links, x, y) {
      forall slot | IsCleared(net, slot, x)
        ensures net.links[x][y].idx in Entry(t.At(slot), x, dst) <==> y in At(hops, x, dst) && Uses(net, slot, x, y)
      {
        EntryIffHop(net, hosts, hops, slot, x, dst, y);
      }
      var used := if net.kind(x) != Host then SwitchSlot else if net.kind(y) == NVSwitch then NVSlot else PlainSlot;
      assert IsCleared(net, used, x) && Uses(net, used, x, y);
    }
  }

  /** A trip of a packet for `host`: at each node it leaves by some interface entered there for the host. */
  ghost predicate IsTrip(net: Net, nodes: seq<Node>, t: AllTables, host: Node, trip: seq<Node>) {
    && trip != []
    && (forall i :: 0 <= i < |trip| ==> trip[i] in nodes)
    && (forall i :: 0 <= i < |trip| - 1 ==> ForwardsTo(net, t, trip[i], host, trip[i + 1]))
  }

  lemma TripFollows(net: Net, nodes: seq<Node>, hosts: set<Node>, hops: Hops, t: AllTables, host: Node, trip: seq<Node>)
    requires RoutesFor(net, hosts, hops) && Installed(net, nodes, hops, t)
    requires Symmetric(net.links) && DistinctIndices(net.links) && IsTrip(net, nodes, t, host, trip)
    ensures Follows(host, hops, trip)
  {
    hide RoutesFor, Installed, Symmetric, DistinctIndices, ForwardsTo;
    forall i | 0 <= i < |trip| - 1 ensures trip[i + 1] in At(hops, trip[i], host) {
      TablesAreNextHops(net, nodes, hosts, hops, t, trip[i], host, trip[i + 1]);
    }
  }

  /** Delivery by the installed tables: a packet that started anywhere the host reaches has made at most as many
      hops as the distance, and where it can go no further it is at the host, having come over a shortest
      route walked backwards. */
  lemma TableDelivery(net: Net, nodes: seq<Node>, hosts: set<Node>, hops: Hops, t: AllTables, host: Node,
                      trip: seq<Node>, p: seq<Node>)
    requires RoutesFor(net, hosts, hops) && Installed(net, nodes, hops, t)
    requires Symmetric(net.links) && DistinctIndices(net.links) && host in hosts
    requires IsTrip(net, nodes, t, host, trip)
    requires IsShortest(net, host, p) && p[|p| - 1] == trip[0]
    ensures |trip| <= |p|
    ensures Stops(net, t, trip[|trip| - 1], host) ==>
      trip[|trip| - 1] == host && IsShortest(net, host, Reverse(trip)) && |trip| == |p|
  {
    hide Installed, Symmetric, DistinctIndices, ForwardsTo, IsShortest, Follows;
    assert Reached(net, host, trip[0]) by { ShortestReaches(net, host, p); }
    TripFollows(net, nodes, hosts, hops, t, host, trip);
    assert forall x :: ListsNextHops(net, host, x, At(hops, x, host));
    hide ListsNextHops, RoutesFor;
    var rest := Progress(net, host, hops, trip, p);
    var last := trip[|trip| - 1];
    if Stops(net, t, last, host) {
      if At(hops, last, host) != [] {
        TablesAreNextHops(net, nodes, hosts, hops, t, last, host, At(hops, last, host)[0]);
        assert false;
      }
      Delivery(net, host, hops, trip);
      ShortestSameLength(net, host, Reverse(trip), p);
    }
  }

  lemma ShortestReaches(net: Net, host: Node, p: seq<Node>)
    requires IsShortest(net, host, p)
    ensures Reached(net, host, p[|p| - 1])
  {
  }
}
