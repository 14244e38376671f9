/** The one table of scratch/common.h that routing passes fill and nobody clears: the RDMA driver's table on
    an NVSwitch. It grows by the entries of every pass, so it can lead into a link that failed. */
module DriverTables {
  import opened Collections
  import opened ForwardingTables
  import opened LinkFailures
  import opened PathCosts
  import opened Routes

  /** One routing pass: the links it saw and the next hops it installed. */
  datatype Pass = Pass(links: Links, hops: Hops)

  ghost predicate IsPass(kind: Node -> Kind, hosts: set<Node>, links: Links, pass: Pass) {
    pass.links == links && RoutesFor(Net(kind, links), hosts, pass.hops)
  }

  /** Failure number j (from 1) hits a link that is still up. */
  predicate Effective(links: Links, cuts: seq<(Node, Node)>, j: nat)
    requires 0 < j <= |cuts|
  {
    IsUp(CutAll(links, cuts[..j - 1]), cuts[j - 1].0, cuts[j - 1].1)
  }

  /** One pass for each failure that hits a link still up, over the links then left, in order. */
  ghost predicate PassesOf(kind: Node -> Kind, hosts: set<Node>, links: Links, cuts: seq<(Node, Node)>,
                           passes: seq<Pass>) {
    if cuts == [] then passes == []
    else
      var front := cuts[..|cuts| - 1];
      if Effective(links, cuts, |cuts|) then
        && passes != []
        && PassesOf(kind, hosts, links, front, passes[..|passes| - 1])
        && IsPass(kind, hosts, CutAll(links, cuts), passes[|passes| - 1])
      else PassesOf(kind, hosts, links, front, passes)
  }

  /** What the passes add to the driver table of NVSwitch x, one block after the other. */
  function Added(kind: Node -> Kind, passes: seq<Pass>, x: Node, dst: Node): seq<nat> {
    if passes == [] then []
    else
      var last := passes[|passes| - 1];
      Added(kind, passes[..|passes| - 1], x, dst) + Entries(Net(kind, last.links), NVSlot, x, At(last.hops, x, dst))
  }

  /** The driver tables are those from before and what the passes added. */
  ghost predicate Grown(kind: Node -> Kind, nodes: seq<Node>, passes: seq<Pass>, before: AllTables, after: AllTables) {
    forall x, d :: x in nodes && kind(x) == NVSwitch ==>
      Entry(after.rdmaNV, x, d) == Entry(before.rdmaNV, x, d) + Added(kind, passes, x, d)
  }

  lemma NotGrown(kind: Node -> Kind, hosts: set<Node>, links: Links, nodes: seq<Node>, t: AllTables)
    ensures PassesOf(kind, hosts, links, [], []) && Grown(kind, nodes, [], t, t)
  {
  }

  lemma GrownOnce(kind: Node -> Kind, links: Links, nodes: seq<Node>, hops: Hops, before: AllTables, after: AllTables)
    requires DriversAppended(Net(kind, links), nodes, hops, before, after)
    ensures Grown(kind, nodes, [Pass(links, hops)], before, after)
  {
    hide Entry, Entries, At;
    var passes := [Pass(links, hops)];
    assert passes[..0] == [];
    forall x, d ensures Added(kind, passes, x, d) == Entries(Net(kind, links), NVSlot, x, At(hops, x, d)) {
      assert Added(kind, passes[..0], x, d) == [];
    }
  }

  lemma GrownSame(kind: Node -> Kind, hosts: set<Node>, links: Links, cuts: seq<(Node, Node)>, a: Node, b: Node,
                  passes: seq<Pass>)
    requires PassesOf(kind, hosts, links, cuts, passes) && !IsUp(CutAll(links, cuts), a, b)
    ensures PassesOf(kind, hosts, links, cuts + [(a, b)], passes)
  {
    hide CutAll, IsPass;
    var more := cuts + [(a, b)];
    assert more[..|more| - 1] == cuts;
  }

  lemma GrownMore(kind: Node -> Kind, hosts: set<Node>, links: Links, cuts: seq<(Node, Node)>, a: Node, b: Node,
                  nodes: seq<Node>, passes: seq<Pass>, hops: Hops, before: AllTables, sofar: AllTables,
                  after: AllTables)
    requires PassesOf(kind, hosts, links, cuts, passes) && IsUp(CutAll(links, cuts), a, b)
    requires Grown(kind, nodes, passes, before, sofar)
    requires var net := Net(kind, CutAll(links, cuts + [(a, b)]));
      RoutesFor(net, hosts, hops) && DriversAppended(net, nodes, hops, sofar, after)
    ensures var longer := passes + [Pass(CutAll(links, cuts + [(a, b)]), hops)];
      PassesOf(kind, hosts, links, cuts + [(a, b)], longer) && Grown(kind, nodes, longer, before, after)
  {
    hide RoutesFor, Entry, Entries, CutAll, At;
    var more := cuts + [(a, b)];
    var longer := passes + [Pass(CutAll(links, more), hops)];
    assert more[..|more| - 1] == cuts && longer[..|longer| - 1] == passes;
  }

  /** A pass enters the interface to y for a host exactly if y is then a next hop towards the host. */
  lemma PassEntry(kind: Node -> Kind, hosts: set<Node>, links: Links, pass: Pass, x: Node, host: Node, y: Node)
    requires IsPass(kind, hosts, links, pass) && Symmetric(links) && DistinctIndices(links)
    requires host in hosts && kind(x) == NVSwitch && HasLink(links, x, y)
    ensures links[x][y].idx in Entries(Net(kind, links), NVSlot, x, At(pass.hops, x, host)) <==>
      IsNextHop(Net(kind, links), host, y, x)
  {
    hide Symmetric, DistinctIndices, Entries, IsNextHop;
    EntryIffHop(Net(kind, links), hosts, pass.hops, NVSlot, x, host, y);
    assert ListsNextHops(Net(kind, links), host, x, At(pass.hops, x, host));
  }

  /** y is the next hop from x towards the host on the links left after j failures. */
  ghost predicate HopAfter(kind: Node -> Kind, links: Links, cuts: seq<(Node, Node)>, j: nat, host: Node, y: Node,
                           x: Node)
    requires j <= |cuts|
  {
    IsNextHop(Net(kind, CutAll(links, cuts[..j])), host, y, x)
  }

  /** Some failure up to number n that took effect left y the next hop. */
  ghost predicate HopAfterSome(kind: Node -> Kind, links: Links, cuts: seq<(Node, Node)>, n: nat, host: Node, y: Node,
                               x: Node)
    requires n <= |cuts|
  {
    exists j :: 0 < j <= n && Effective(links, cuts, j) && HopAfter(kind, links, cuts, j, host, y, x)
  }

  lemma SomeOfFront(kind: Node -> Kind, links: Links, cuts: seq<(Node, Node)>, n: nat, host: Node, y: Node, x: Node)
    requires n <= |cuts|
    ensures HopAfterSome(kind, links, cuts[..n], n, host, y, x) == HopAfterSome(kind, links, cuts, n, host, y, x)
  {
    hide CutAll, IsNextHop;
    var front := cuts[..n];
    forall j | 0 < j <= n
      ensures Effective(links, front, j) == Effective(links, cuts, j)
      ensures HopAfter(kind, links, front, j, host, y, x) == HopAfter(kind, links, cuts, j, host, y, x)
    {
      assert front[..j - 1] == cuts[..j - 1] && front[..j] == cuts[..j];
    }
    hide Effective, HopAfter;
  }

  /** Over any sequence of failures, the driver table of an NVSwitch leads to y exactly if it did so before or
      some failure that took effect left y a next hop. */
  lemma {:induction false} DriverOverDownLink(kind: Node -> Kind, hosts: set<Node>, links: Links,
                                              cuts: seq<(Node, Node)>, passes: seq<Pass>, kept: seq<nat>,
                                              x: Node, host: Node, y: Node)
    requires PassesOf(kind, hosts, links, cuts, passes) && Symmetric(links) && DistinctIndices(links)
    requires host in hosts && kind(x) == NVSwitch && HasLink(links, x, y)
    ensures links[x][y].idx in kept + Added(kind, passes, x, host) <==>
      links[x][y].idx in kept || HopAfterSome(kind, links, cuts, |cuts|, host, y, x)
  {
    hide Effective, HopAfter, IsPass, Symmetric, DistinctIndices, Entries;
    if cuts != [] {
      var n, front := |cuts|, cuts[..|cuts| - 1];
      SomeOfFront(kind, links, cuts, n - 1, host, y, x);
      if Effective(links, cuts, n) {
        DriverOverDownLink(kind, hosts, links, front, passes[..|passes| - 1], kept, x, host, y);
        LastPass(kind, hosts, links, cuts, passes[|passes| - 1], x, host, y);
      } else {
        DriverOverDownLink(kind, hosts, links, front, passes, kept, x, host, y);
      }
    }
  }

  lemma LastPass(kind: Node -> Kind, hosts: set<Node>, links: Links, cuts: seq<(Node, Node)>, pass: Pass, x: Node,
                 host: Node, y: Node)
    requires IsPass(kind, hosts, CutAll(links, cuts), pass) && Symmetric(links) && DistinctIndices(links)
    requires host in hosts && kind(x) == NVSwitch && HasLink(links, x, y)
    ensures links[x][y].idx in Entries(Net(kind, pass.links), NVSlot, x, At(pass.hops, x, host)) <==>
      HopAfter(kind, links, cuts, |cuts|, host, y, x)
  {
    hide IsNextHop, Entries, CutAll, RoutesFor;
    CutAllOnly(links, cuts);
    assert cuts[..|cuts|] == cuts;
    PassEntry(kind, hosts, CutAll(links, cuts), pass, x, host, y);
    assert CutAll(links, cuts)[x][y].idx == links[x][y].idx;
  }

  lemma FirstPass(kind: Node -> Kind, hosts: set<Node>, links: Links, cuts: seq<(Node, Node)>,
                  setup: Pass, x: Node, host: Node, y: Node)
    requires IsPass(kind, hosts, links, setup) && Symmetric(links) && DistinctIndices(links)
    requires host in hosts && kind(x) == NVSwitch && HasLink(links, x, y)
    ensures links[x][y].idx in Added(kind, [setup], x, host) <==> HopAfter(kind, links, cuts, 0, host, y, x)
  {
    hide IsNextHop, Entries, RoutesFor;
    PassEntry(kind, hosts, links, setup, x, host, y);
    assert [setup][..0] == [] && CutAll(links, cuts[..0]) == links;
    var before: seq<nat> := Added(kind, [], x, host);
    assert Added(kind, [setup], x, host) == before + Entries(Net(kind, links), NVSlot, x, At(setup.hops, x, host));
  }

  /** Counted from the setup on: the driver table of an NVSwitch leads to y exactly if y was a next hop at some
      time, on the links of the setup or on those left after some number of failures. */
  lemma DriverRemembers(kind: Node -> Kind, hosts: set<Node>, links: Links, cuts: seq<(Node, Node)>,
                        setup: Pass, passes: seq<Pass>, x: Node, host: Node, y: Node)
    requires IsPass(kind, hosts, links, setup) && PassesOf(kind, hosts, links, cuts, passes)
    requires Symmetric(links) && DistinctIndices(links)
    requires host in hosts && kind(x) == NVSwitch && HasLink(links, x, y)
    ensures links[x][y].idx in Added(kind, [setup], x, host) + Added(kind, passes, x, host) <==>
      exists j :: 0 <= j <= |cuts| && HopAfter(kind, links, cuts, j, host, y, x)
  {
    hide IsPass, PassesOf, Symmetric, DistinctIndices, Added, HopAfter, Effective;
    DriverOverDownLink(kind, hosts, links, cuts, passes, Added(kind, [setup], x, host), x, host, y);
    FirstPass(kind, hosts, links, cuts, setup, x, host, y);
    if j :| 0 <= j <= |cuts| && HopAfter(kind, links, cuts, j, host, y, x) {
      var i := LastChange(kind, links, cuts, j, host, y, x);
    }
  }

  /** Failures without effect change no next hop. */
  lemma {:induction false} LastChange(kind: Node -> Kind, links: Links, cuts: seq<(Node, Node)>, j: nat,
                                      host: Node, y: Node, x: Node) returns (i: nat)
    requires j <= |cuts| && HopAfter(kind, links, cuts, j, host, y, x)
    ensures i <= j && HopAfter(kind, links, cuts, i, host, y, x) && (i > 0 ==> Effective(links, cuts, i))
  {
    i := j;
    if j > 0 && !Effective(links, cuts, j) {
      assert cuts[..j][..j - 1] == cuts[..j - 1];
      i := LastChange(kind, links, cuts, j - 1, host, y, x);
    }
  }

  /** The driver tables lead exactly to the nodes that were next hops at some time. */
  ghost predicate Remembers(kind: Node -> Kind, nodes: seq<Node>, hosts: set<Node>, links: Links,
                            cuts: seq<(Node, Node)>, t: AllTables) {
    forall x, host, y :: x in nodes && kind(x) == NVSwitch && host in hosts && HasLink(links, x, y) ==>
      (links[x][y].idx in Entry(t.rdmaNV, x, host) <==>
        exists j :: 0 <= j <= |cuts| && HopAfter(kind, links, cuts, j, host, y, x))
  }

  lemma AllRemembered(kind: Node -> Kind, nodes: seq<Node>, hosts: set<Node>, links: Links, cuts: seq<(Node, Node)>,
                      setup: Pass, passes: seq<Pass>, before: AllTables, installed: AllTables, after: AllTables)
    requires IsPass(kind, hosts, links, setup) && PassesOf(kind, hosts, links, cuts, passes)
    requires Symmetric(links) && DistinctIndices(links) && before == AllTables(map[], map[], map[])
    requires Grown(kind, nodes, [setup], before, installed) && Grown(kind, nodes, passes, installed, after)
    ensures Remembers(kind, nodes, hosts, links, cuts, after)
  {
    hide IsPass, PassesOf, Symmetric, DistinctIndices, Added, HopAfter;
    forall x, host, y | x in nodes && kind(x) == NVSwitch && host in hosts && HasLink(links, x, y)
      ensures links[x][y].idx in Entry(after.rdmaNV, x, host) <==>
        exists j :: 0 <= j <= |cuts| && HopAfter(kind, links, cuts, j, host, y, x)
    {
      DriverRemembers(kind, hosts, links, cuts, setup, passes, x, host, y);
      assert Entry(before.rdmaNV, x, host) == [];
      assert Entry(installed.rdmaNV, x, host) == [] + Added(kind, [setup], x, host);
    }
  }

  // ---------- a link that fails and stays entered

  /** A node that is linked to the host itself has the host as its next hop. */
  lemma DirectHop(net: Net, host: Node, x: Node)
    requires net.Up(host, x) && x != host && net.kind(host) == Host
    ensures IsNextHop(net, host, host, x)
  {
    var p := [host, x];
    forall q | IsRoute(net, host, q) && q[|q| - 1] == x ensures |q| >= 2 {
    }
    assert IsShortest(net, host, p);
    forall u | IsPred(net, host, u, x) ensures u == host {
      var q :| IsShortest(net, host, q) && |q| >= 2 && q[|q| - 2] == u && q[|q| - 1] == x;
      ShortestSameLength(net, host, p, q);
    }
  }

  /** Where the claim that no table leads into a failed link is false: an NVSwitch x with a host y of its own.
      When the link between them fails, x keeps its entry for y. */
  lemma StaleEntry(kind: Node -> Kind, nodes: seq<Node>, hosts: set<Node>, links: Links, t: AllTables, x: Node, y: Node)
    requires Remembers(kind, nodes, hosts, links, [(x, y)], t) && Symmetric(links)
    requires IsUp(links, x, y) && x in nodes && kind(x) == NVSwitch && y in hosts && kind(y) == Host
    ensures !IsUp(CutAll(links, [(x, y)]), x, y)
    ensures links[x][y].idx in Entry(t.rdmaNV, x, y)
  {
    hide IsNextHop, Entry;
    var cuts := [(x, y)];
    CutAllOnly(links, cuts);
    assert (x, y) in cuts;
    assert CutAll(links, cuts[..0]) == links;
    DirectHop(Net(kind, links), y, x);
    assert HopAfter(kind, links, cuts, 0, y, y, x);
  }
}
