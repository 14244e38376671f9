/** The routing state of scratch/common.h and the functions that rebuild it. Neighbours are visited in any
    order. */
module Network {
  import opened Collections
  import opened DriverTables
  import opened ForwardingTables
  import opened LinkFailures
  import opened MachineInts
  import opened PairTables
  import opened PathCosts
  import opened RadUtil
  import opened RouteCosts
  import opened Routes
  import opened RouteSearch
  import opened TableContents

  class Topology {
    const kind: Node -> Kind
    /** The NodeContainer n, each node once. */
    const nodes: seq<Node>
    /** The configured MTU. */
    const payload: nat
    var nbr2if: Links
    var nextHop: Hops
    var pairDelay: Pairwise
    var pairTxDelay: Pairwise
    var pairBw: Pairwise
    var pairRtt: Pairwise
    var pairBdp: Pairwise
    var maxRtt: nat
    var maxBdp: nat
    /** m_rtTable of the switches, and m_rtTable and m_rtTable_nxthop_nvswitch of the RDMA drivers. */
    var tables: AllTables

    ghost function Now(): Net
      reads this`nbr2if
    {
      Net(kind, nbr2if)
    }

    /** The next-hop list of a neighbour for which `now` is a last stop. */
    method AddToList(before: seq<Node>, now: Node) returns (list: seq<Node>)
      ensures list == Listed(Now(), before, now)
    {
      list := before;
      var viaNVSwitch := false;
      for k := 0 to |list|
        invariant viaNVSwitch <==> exists j :: 0 <= j < k && kind(list[j]) == NVSwitch
      {
        if kind(list[k]) == NVSwitch {
          viaNVSwitch := true;
        }
      }
      assert viaNVSwitch <==> HasNV(Now(), before);
      if !viaNVSwitch {
        if kind(now) == NVSwitch {
          while list != [] {
            list := list[..|list| - 1];
          }
        }
        list := list + [now];
      } else if kind(now) == NVSwitch {
        list := list + [now];
      }
    }

    /** Lines 434-456: `now` is a last stop before `next`. */
    method AddLastStopEntry(host: Node, now: Node, next: Node, linkBw: nat)
      requires kind(host) == Host && (now == host || kind(now) != Host)
      modifies this`nextHop, this`pairBw
      ensures nextHop == AddLastStop(Now(), host, old(nextHop), now, next)
      ensures SameForHosts(Now(), pairBw, old(pairBw))
      ensures var written := kind(next) == Host && now != host && At(old(nextHop), next, now) == [];
        forall x, y :: Get(pairBw, x, y) ==
          (if written && ((x == now && y == next) || (x == next && y == now)) then linkBw else old(Get(pairBw, x, y)))
    {
      hide Listed, At, Set, Get;
      var list := AddToList(At(nextHop, next, host), now);
      ListedSome(Now(), At(nextHop, next, host), now);
      AtSet(nextHop, next, host, list);
      nextHop := Set(nextHop, next, host, list);
      if kind(next) == Host && At(nextHop, next, now) == [] {
        nextHop := Set(nextHop, next, now, [now]);
        GetPut(pairBw, now, next, linkBw);
        GetPut(Put(pairBw, now, next, linkBw), next, now, linkBw);
        pairBw := Put(Put(pairBw, now, next, linkBw), next, now, linkBw);
      }
    }

    method RecordCosts(host: Node, c: Costs)
      modifies this`pairDelay, this`pairTxDelay, this`pairBw
      ensures forall x, y ::
        Get(pairDelay, x, y) == if y == host && x in c.delay then c.delay[x] else old(Get(pairDelay, x, y))
      ensures forall x, y ::
        Get(pairTxDelay, x, y) == if y == host && x in c.txDelay then c.txDelay[x] else old(Get(pairTxDelay, x, y))
      ensures forall x, y :: Get(pairBw, x, y) == if y == host && x in c.bw then c.bw[x] else old(Get(pairBw, x, y))
    {
      hide Get;
      pairDelay := StoreColumn(pairDelay, host, c.delay);
      pairTxDelay := StoreColumn(pairTxDelay, host, c.txDelay);
      pairBw := StoreColumn(pairBw, host, c.bw);
    }

    /** The body of the inner loop: the search, at position i of its queue, looks at one link. */
    method VisitLink(host: Node, next: Node, link: Interface, q: seq<Node>, dis: map<Node, nat>, c: Costs, i: nat,
                     ghost s: Search, ghost finished: set<Node>, ghost seen: set<Node>, ghost before: Hops)
      returns (q': seq<Node>, dis': map<Node, nat>, c': Costs, ghost s': Search)
      requires i < |q| && q == s.q && dis == s.dis && next !in seen
      requires q[i] in nbr2if && next in nbr2if[q[i]] && nbr2if[q[i]][next] == link
      requires Running(Now(), payload, host, s, i, finished, seen, before, nextHop, c)
      modifies this`nextHop, this`pairBw
      ensures |q'| >= |q| && q'[i] == q[i] && (|q'| == |q| || |q'| <= |Universe(host, nbr2if)|)
      ensures q' == s'.q && dis' == s'.dis
      ensures Running(Now(), payload, host, s', i, finished, seen + {next}, before, nextHop, c')
      ensures SameForHosts(Now(), pairBw, old(pairBw))
      ensures LastStopRates(Now(), old(nextHop), old(pairBw)) ==> LastStopRates(Now(), nextHop, pairBw)
    {
      hide Running, AddLastStop, FoundOver, Universe, Get, LastStopRates;
      q', dis', c', s' := q, dis, c, s;
      var now := q[i];
      ghost var net := Now();
      if !link.up {
        SkipLink(net, payload, host, s, i, finished, seen, before, nextHop, c, next);
        return;
      }
      if next !in dis {
        FindNode(net, payload, host, s, i, finished, seen, before, nextHop, c, next);
        dis' := dis[next := dis[now] + 1];
        c' := FoundOver(payload, c, now, next, link);
        if kind(next) == Switch || kind(next) == NVSwitch {
          q' := q + [next];
        }
        s' := Discover(net, s, now, next);
      }
      TakeLink(net, payload, host, s', i, finished, seen, before, nextHop, c', next);
      if dis'[now] + 1 == dis'[next] {
        ghost var hops, rates := nextHop, pairBw;
        AddLastStopEntry(host, now, next, link.bw);
        if LastStopRates(net, hops, rates) {
          LastStopRate(net, host, hops, rates, pairBw, now, next);
        }
      }
    }

    method CalculateRoute(host: Node, ghost done: set<Node>)
      requires kind(host) == Host && host !in done && forall h :: h in done ==> kind(h) == Host
      requires ValidRates(nbr2if)
      requires RoutesFor(Now(), done, nextHop)
      modifies this`nextHop, this`pairDelay, this`pairTxDelay, this`pairBw
      ensures RoutesFor(Now(), done + {host}, nextHop)
      ensures CostsFor(Now(), payload, {host}, pairDelay, pairTxDelay, pairBw)
      ensures OnlyReached(Now(), {host}, old(pairDelay), pairDelay)
      ensures OnlyReached(Now(), {host}, old(pairTxDelay), pairTxDelay)
      ensures OnlyReachedHosts(Now(), {host}, old(pairBw), pairBw)
      ensures LastStopRates(Now(), old(nextHop), old(pairBw)) ==> LastStopRates(Now(), nextHop, pairBw)
    {
      hide Running, RoutesFor, ValidRates, Universe, CostsAlong, Reached, Get, OnlyReached, OnlyReachedHosts,
        LastStopRates;
      ghost var net, before, bound := Now(), nextHop, |Universe(host, nbr2if)|;
      ghost var s, finished: set<Node> := Start(host), {};
      SearchStart(net, payload, host, done, before);
      var q := [host];
      var dis: map<Node, nat> := map[host := 0];
      var c := Costs(map[host := 0], map[host := 0], map[host := U64 - 1]);
      var i := 0;
      while i < |q|
        invariant 0 <= i <= |q| <= bound && s.q == q && s.dis == dis
        invariant Running(net, payload, host, s, i, finished, {}, before, nextHop, c)
        invariant pairDelay == old(pairDelay) && pairTxDelay == old(pairTxDelay)
        invariant SameForHosts(net, pairBw, old(pairBw))
        invariant LastStopRates(net, before, old(pairBw)) ==> LastStopRates(net, nextHop, pairBw)
        decreases bound - i
      {
        var now := q[i];
        var neighbours := if now in nbr2if then nbr2if[now] else map[];
        var left := neighbours.Keys;
        ghost var seen: set<Node> := {};
        while left != {}
          invariant left <= neighbours.Keys && seen == neighbours.Keys - left
          invariant i < |q| <= bound && s.q == q && s.dis == dis && q[i] == now
          invariant Running(net, payload, host, s, i, finished, seen, before, nextHop, c)
          invariant pairDelay == old(pairDelay) && pairTxDelay == old(pairTxDelay)
          invariant SameForHosts(net, pairBw, old(pairBw))
          invariant LastStopRates(net, before, old(pairBw)) ==> LastStopRates(net, nextHop, pairBw)
          decreases left
        {
          var next :| next in left;
          left := left - {next};
          q, dis, c, s := VisitLink(host, next, neighbours[next], q, dis, c, i, s, finished, seen, before);
          seen := seen + {next};
        }
        NextNode(net, payload, host, s, i, finished, seen, before, nextHop, c);
        finished := finished + {now};
        i := i + 1;
      }
      SearchDone(net, payload, host, s, finished, done, before, nextHop, c);
      ghost var delay, txDelay, bw := pairDelay, pairTxDelay, pairBw;
      RecordCosts(host, c);
      ColumnReached(net, host, c.delay, delay, pairDelay);
      ColumnReached(net, host, c.txDelay, txDelay, pairTxDelay);
      HostColumnReached(net, host, c.bw, old(pairBw), bw, pairBw);
      if LastStopRates(net, nextHop, bw) {
        ColumnKeepsRates(net, host, nextHop, bw, pairBw);
      }
    }

    function Hosts(): set<Node> {
      set x | x in nodes && kind(x) == Host
    }

    /** The shape SetupNetwork gives the topology. */
    ghost predicate Valid()
      reads this
    {
      NoDuplicates(nodes) && ValidRates(nbr2if) && Symmetric(nbr2if) && DistinctIndices(nbr2if)
    }

    method CalculateRoutes()
      requires NoDuplicates(nodes) && ValidRates(nbr2if) && nextHop == map[]
      modifies this`nextHop, this`pairDelay, this`pairTxDelay, this`pairBw
      ensures RoutesFor(Now(), Hosts(), nextHop)
      ensures CostsFor(Now(), payload, Hosts(), pairDelay, pairTxDelay, pairBw)
      ensures OnlyReached(Now(), Hosts(), old(pairDelay), pairDelay)
      ensures OnlyReached(Now(), Hosts(), old(pairTxDelay), pairTxDelay)
      ensures OnlyReachedHosts(Now(), Hosts(), old(pairBw), pairBw)
      ensures LastStopRates(Now(), nextHop, pairBw)
    {
      ghost var done: set<Node> := {};
      NoRoutesYet(Now());
      assert CostsFor(Now(), payload, {}, pairDelay, pairTxDelay, pairBw) && LastStopRates(Now(), map[], pairBw);
      assert OnlyReached(Now(), {}, pairDelay, pairDelay) && OnlyReached(Now(), {}, pairTxDelay, pairTxDelay);
      assert OnlyReachedHosts(Now(), {}, pairBw, pairBw);
      hide RoutesFor, CostsFor, ValidRates, OnlyReached, OnlyReachedHosts, LastStopRates;
      for i := 0 to |nodes|
        invariant forall x :: x in done <==> x in nodes[..i] && kind(x) == Host
        invariant RoutesFor(Now(), done, nextHop)
        invariant CostsFor(Now(), payload, done, pairDelay, pairTxDelay, pairBw)
        invariant OnlyReached(Now(), done, old(pairDelay), pairDelay)
        invariant OnlyReached(Now(), done, old(pairTxDelay), pairTxDelay)
        invariant OnlyReachedHosts(Now(), done, old(pairBw), pairBw)
        invariant LastStopRates(Now(), nextHop, pairBw)
      {
        var node := nodes[i];
        if kind(node) == Host {
          ghost var delay, txDelay, bw := pairDelay, pairTxDelay, pairBw;
          CalculateRoute(node, done);
          CostsMore(Now(), payload, done, node, delay, txDelay, bw, pairDelay, pairTxDelay, pairBw);
          OnlyReachedMore(Now(), done, node, old(pairDelay), delay, pairDelay);
          OnlyReachedMore(Now(), done, node, old(pairTxDelay), txDelay, pairTxDelay);
          OnlyReachedHostsMore(Now(), done, node, old(pairBw), bw, pairBw);
          done := done + {node};
        }
      }
      assert nodes[..|nodes|] == nodes;
      assert done == Hosts();
    }

    /** One iteration of the loop over `nexts` in SetRoutingEntries. */
    method AddTableEntry(node: Node, dst: Node, next: Node)
      modifies this`tables
      ensures AddedList(Now(), old(tables), tables, node, dst, [next])
      ensures var idx := Step(nbr2if, node, next).idx;
        var more := (t: Tables) => AddEntry(t, node, dst, idx);
        match kind(node)
        case Switch => tables == old(tables).(switches := more(old(tables.switches)))
        case NVSwitch =>
          tables == old(tables).(switches := more(old(tables.switches)), rdmaNV := more(old(tables.rdmaNV)))
        case Host =>
          if kind(next) == NVSwitch then tables == old(tables).(rdmaNV := more(old(tables.rdmaNV)))
          else tables == old(tables).(rdma := more(old(tables.rdma)))
    {
      hide Entry, AddEntry, Entries, AddedList;
      var interface := Step(nbr2if, node, next).idx;
      if kind(node) == Switch {
        tables := tables.(switches := AddEntry(tables.switches, node, dst, interface));
      } else if kind(node) == NVSwitch {
        tables := tables.(switches := AddEntry(tables.switches, node, dst, interface));
        tables := tables.(rdmaNV := AddEntry(tables.rdmaNV, node, dst, interface));
      } else {
        var isNVSwitch := false;
        if kind(next) == NVSwitch {
          isNVSwitch := true;
        }
        if isNVSwitch {
          tables := tables.(rdmaNV := AddEntry(tables.rdmaNV, node, dst, interface));
        } else {
          tables := tables.(rdma := AddEntry(tables.rdma, node, dst, interface));
        }
      }
      AddedToSlots(Now(), old(tables), tables, node, dst, next);
    }

    method SetRoutingEntries()
      modifies this`tables
      ensures FilledAll(Now(), nextHop, old(tables), tables) && OthersKept(Now(), old(tables), tables)
    {
      hide Filled, AddedList;
      ghost var net, before := Now(), tables;
      NothingFilled(net, nextHop, before);
      var nodesLeft := nextHop.Keys;
      while nodesLeft != {}
        invariant nodesLeft <= nextHop.Keys
        invariant Filled(net, nextHop, before, tables, nodesLeft, None, {})
        decreases nodesLeft
      {
        var node :| node in nodesLeft;
        FillNode(net, nextHop, before, tables, nodesLeft, node);
        nodesLeft := nodesLeft - {node};
        var table := nextHop[node];
        var dstsLeft := table.Keys;
        while dstsLeft != {}
          invariant dstsLeft <= table.Keys
          invariant Filled(net, nextHop, before, tables, nodesLeft, Some(node), dstsLeft)
          decreases dstsLeft
        {
          var dst :| dst in dstsLeft;
          ghost var start := tables;
          var nexts := table[dst];
          NothingAdded(net, tables, node, dst);
          for k := 0 to |nexts|
            invariant AddedList(net, start, tables, node, dst, nexts[..k])
          {
            ghost var sofar := tables;
            AddTableEntry(node, dst, nexts[k]);
            AddOne(net, start, sofar, tables, node, dst, nexts[..k], nexts[k]);
            TakeOneMore(nexts, k);
          }
          assert nexts[..|nexts|] == nexts;
          FillDst(net, nextHop, before, start, tables, nodesLeft, node, dstsLeft, dst);
          dstsLeft := dstsLeft - {dst};
        }
        LeaveNode(net, nextHop, before, tables, nodesLeft, node);
      }
      AllFilled(net, nextHop, before, tables);
      FilledKeepsOthers(net, nextHop, before, tables);
    }

    method ClearTables()
      modifies this`tables
      ensures Cleared(Now(), nodes, old(tables), tables) && OthersKept(Now(), old(tables), tables)
    {
      for i := 0 to |nodes|
        invariant Cleared(Now(), nodes[..i], old(tables), tables)
      {
        ghost var sofar := tables;
        var node := nodes[i];
        if kind(node) != Host {
          tables := tables.(switches := tables.switches[node := map[]]);
        } else {
          tables := tables.(rdma := tables.rdma[node := map[]], rdmaNV := tables.rdmaNV[node := map[]]);
        }
        ClearOne(Now(), nodes, i, old(tables), sofar, tables);
      }
      assert nodes[..|nodes|] == nodes;
      ClearedKeepsOthers(Now(), nodes, old(tables), tables);
    }

    /** Routes computed from the links as they are, and installed in every table that gets cleared. */
    ghost predicate Routed()
      reads this
    {
      RoutesFor(Now(), Hosts(), nextHop) && Installed(Now(), nodes, nextHop, tables)
    }

    /** SetupNetwork, lines 1061 and 1062. */
    method SetupRouting()
      requires Valid() && nextHop == map[] && tables == AllTables(map[], map[], map[])
      modifies this`nextHop, this`pairDelay, this`pairTxDelay, this`pairBw, this`tables
      ensures Valid() && Routed()
      ensures CostsFor(Now(), payload, Hosts(), pairDelay, pairTxDelay, pairBw)
      ensures LastStopRates(Now(), nextHop, pairBw)
      ensures HoldNextHops(Now(), nodes, nextHop, tables) && OthersKept(Now(), old(tables), tables)
      ensures nbr2if == old(nbr2if) && Grown(kind, nodes, [Pass(nbr2if, nextHop)], old(tables), tables)
    {
      hide RoutesFor, FilledAll, Installed, CostsFor, Entry, Grown, DriversAppended, LastStopRates,
        HoldNextHops, OthersKept;
      ghost var empty := tables;
      CalculateRoutes();
      SetRoutingEntries();
      EmptyIsCleared(Now(), nodes, empty);
      ClearedThenFilled(Now(), nodes, nextHop, empty, empty, tables);
      GrownOnce(kind, nbr2if, nodes, nextHop, empty, tables);
      InstalledHold(Now(), nodes, Hosts(), nextHop, tables);
    }

    method TakeDownLink(a: Node, b: Node)
      requires Valid() && Routed()
      modifies this`nbr2if, this`nextHop, this`pairDelay, this`pairTxDelay, this`pairBw, this`tables
      ensures Valid() && Routed()
      ensures nbr2if == Cut(old(nbr2if), a, b) && OnlyDown(old(nbr2if), nbr2if, [(a, b)])
      ensures !IsUp(old(nbr2if), a, b) ==>
        && nextHop == old(nextHop) && tables == old(tables)
        && pairDelay == old(pairDelay) && pairTxDelay == old(pairTxDelay) && pairBw == old(pairBw)
      ensures HoldNextHops(Now(), nodes, nextHop, tables) && OthersKept(Now(), old(tables), tables)
      ensures OnlyReached(Now(), Hosts(), old(pairDelay), pairDelay)
      ensures OnlyReached(Now(), Hosts(), old(pairTxDelay), pairTxDelay)
      ensures OnlyReachedHosts(Now(), Hosts(), old(pairBw), pairBw)
      ensures IsUp(old(nbr2if), a, b) ==>
        && CostsFor(Now(), payload, Hosts(), pairDelay, pairTxDelay, pairBw)
        && LastStopRates(Now(), nextHop, pairBw)
        && DriversAppended(Now(), nodes, nextHop, old(tables), tables)
    {
      hide RoutesFor, FilledAll, Cleared, Installed, DriversAppended, CostsFor, Symmetric, ValidRates,
        DistinctIndices, Lower, OnlyDown, LastStopRates, HoldNextHops;
      CutOnly(nbr2if, a, b);
      CutOnlyDown(nbr2if, a, b);
      if !IsUp(nbr2if, a, b) {
        InstalledHold(Now(), nodes, Hosts(), nextHop, tables);
        return;
      }
      nbr2if := Lower(nbr2if, a, b);
      nbr2if := Lower(nbr2if, b, a);
      nextHop := map[];
      CalculateRoutes();
      ClearTables();
      ghost var cleared := tables;
      SetRoutingEntries();
      ClearedThenFilled(Now(), nodes, nextHop, old(tables), cleared, tables);
      InstalledHold(Now(), nodes, Hosts(), nextHop, tables);
      OthersKeptTwice(Now(), old(tables), cleared, tables);
    }

    /** Any sequence of link failures; `passes` are the routing passes of those that took effect. */
    method TakeDownLinks(cuts: seq<(Node, Node)>) returns (ghost passes: seq<Pass>)
      requires Valid() && Routed()
      modifies this`nbr2if, this`nextHop, this`pairDelay, this`pairTxDelay, this`pairBw, this`tables
      ensures Valid() && Routed()
      ensures nbr2if == CutAll(old(nbr2if), cuts) && OnlyDown(old(nbr2if), nbr2if, cuts)
      ensures HoldNextHops(Now(), nodes, nextHop, tables) && OthersKept(Now(), old(tables), tables)
      ensures PassesOf(kind, Hosts(), old(nbr2if), cuts, passes) && Grown(kind, nodes, passes, old(tables), tables)
    {
      hide PassesOf, Grown, DriversAppended, CostsFor, Cut, RoutesFor, Installed, Symmetric, DistinctIndices,
        ValidRates, HoldNextHops;
      ghost var links, before := nbr2if, tables;
      passes := [];
      CutAllOnly(links, cuts);
      NotGrown(kind, Hosts(), links, nodes, tables);
      InstalledHold(Now(), nodes, Hosts(), nextHop, tables);
      for i := 0 to |cuts|
        invariant Valid() && Routed()
        invariant nbr2if == CutAll(links, cuts[..i])
        invariant HoldNextHops(Now(), nodes, nextHop, tables) && OthersKept(Now(), before, tables)
        invariant PassesOf(kind, Hosts(), links, cuts[..i], passes) && Grown(kind, nodes, passes, before, tables)
      {
        var (a, b) := cuts[i];
        ghost var effective, sofar := IsUp(nbr2if, a, b), tables;
        TakeDownLink(a, b);
        OthersKeptTwice(Now(), before, sofar, tables);
        assert cuts[..i + 1] == cuts[..i] + [(a, b)];
        assert cuts[..i + 1][..i] == cuts[..i];
        if effective {
          GrownMore(kind, Hosts(), links, cuts[..i], a, b, nodes, passes, nextHop, before, sofar, tables);
          passes := passes + [Pass(nbr2if, nextHop)];
        } else {
          GrownSame(kind, Hosts(), links, cuts[..i], a, b, passes);
        }
      }
      assert cuts[..|cuts|] == cuts;
    }

    /** The routing of SetupNetwork and any sequence of link failures after it. */
    method SetupAndFail(cuts: seq<(Node, Node)>)
      requires Valid() && nextHop == map[] && tables == AllTables(map[], map[], map[])
      modifies this`nbr2if, this`nextHop, this`pairDelay, this`pairTxDelay, this`pairBw, this`tables
      ensures Valid() && Routed()
      ensures nbr2if == CutAll(old(nbr2if), cuts) && OnlyDown(old(nbr2if), nbr2if, cuts)
      ensures HoldNextHops(Now(), nodes, nextHop, tables) && OthersKept(Now(), old(tables), tables)
      ensures Remembers(kind, nodes, Hosts(), old(nbr2if), cuts, tables)
    {
      hide PassesOf, Grown, CostsFor, RoutesFor, Installed, Symmetric, DistinctIndices, ValidRates, Remembers,
        HoldNextHops;
      SetupRouting();
      ghost var setup, installed := Pass(nbr2if, nextHop), tables;
      ghost var passes := TakeDownLinks(cuts);
      OthersKeptTwice(Now(), old(tables), installed, tables);
      AllRemembered(kind, nodes, Hosts(), old(nbr2if), cuts, setup, passes, old(tables), installed, tables);
    }

    /** SetupNetwork, lines 1070-1089. */
    method DeriveRttAndBdp()
      modifies this`pairRtt, this`pairBdp, this`maxRtt, this`maxBdp
      ensures forall x, y :: (x, y) in HostPairs() ==>
        && Get(pairRtt, x, y) == (Get(pairDelay, x, y) * 2 + Get(pairTxDelay, x, y)) % U64
        && Get(pairBdp, x, y) == Get(pairRtt, x, y) * Get(pairBw, x, y) % U64 / 1_000_000_000 / 8
      ensures IsLargest(pairRtt, HostPairs(), maxRtt) && IsLargest(pairBdp, HostPairs(), maxBdp)
    {
      hide Derived, Get, IsLargest;
      maxRtt, maxBdp := 0, 0;
      ghost var seen: set<(Node, Node)> := {};
      NothingDerived(pairDelay, pairTxDelay, pairBw, pairRtt, pairBdp);
      for i := 0 to |nodes|
        invariant Derived(pairDelay, pairTxDelay, pairBw, seen, pairRtt, pairBdp, maxRtt, maxBdp)
        invariant forall x, y :: (x, y) in seen <==> x in nodes[..i] && y in nodes && kind(x) == kind(y) == Host
      {
        TakeOneMore(nodes, i);
        if kind(nodes[i]) != Host {
          continue;
        }
        ghost var rows := seen;
        for j := 0 to |nodes|
          invariant Derived(pairDelay, pairTxDelay, pairBw, seen, pairRtt, pairBdp, maxRtt, maxBdp)
          invariant forall x, y :: (x, y) in seen <==>
            (x, y) in rows || (x == nodes[i] && y in nodes[..j] && kind(y) == Host)
        {
          TakeOneMore(nodes, j);
          if kind(nodes[j]) != Host {
            continue;
          }
          DeriveFor(nodes[i], nodes[j], seen);
          seen := seen + {(nodes[i], nodes[j])};
        }
        assert nodes[..|nodes|] == nodes;
      }
      assert nodes[..|nodes|] == nodes;
      forall p: (Node, Node) ensures p in seen <==> p in HostPairs() {
        assert p == (p.0, p.1);
      }
      assert seen == HostPairs();
      AllDerived(pairDelay, pairTxDelay, pairBw, seen, pairRtt, pairBdp, maxRtt, maxBdp);
    }

    ghost function HostPairs(): set<(Node, Node)> {
      set x, y | x in Hosts() && y in Hosts() :: (x, y)
    }

    method DeriveFor(x: Node, y: Node, ghost seen: set<(Node, Node)>)
      requires Derived(pairDelay, pairTxDelay, pairBw, seen, pairRtt, pairBdp, maxRtt, maxBdp)
      modifies this`pairRtt, this`pairBdp, this`maxRtt, this`maxBdp
      ensures Derived(pairDelay, pairTxDelay, pairBw, seen + {(x, y)}, pairRtt, pairBdp, maxRtt, maxBdp)
    {
      hide Get, Put, Derived;
      DeriveStep(pairDelay, pairTxDelay, pairBw, seen, pairRtt, pairBdp, maxRtt, maxBdp, x, y);
      var delay, txDelay := Get(pairDelay, x, y), Get(pairTxDelay, x, y);
      var rtt := (delay * 2 + txDelay) % U64;
      var bw := Get(pairBw, x, y);
      var bdp := rtt * bw % U64 / 1_000_000_000 / 8;
      pairBdp := Put(pairBdp, x, y, bdp);
      pairRtt := Put(pairRtt, x, y, rtt);
      if bdp > maxBdp {
        maxBdp := bdp;
      }
      if rtt > maxRtt {
        maxRtt := rtt;
      }
    }
  }

  lemma NoRoutesYet(net: Net)
    ensures RoutesFor(net, {}, map[])
  {
  }
}
