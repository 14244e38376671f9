/** What the forwarding tables of scratch/common.h hold, field by field. */
module TableContents {
  import opened Collections
  import opened ForwardingTables
  import opened LinkFailures
  import opened PathCosts
  import opened Routes

  /** x's interface to y is entered for dst. */
  predicate Leads(net: Net, t: Tables, x: Node, dst: Node, y: Node) {
    HasLink(net.links, x, y) && net.links[x][y].idx in Entry(t, x, dst)
  }

  /** In a switch the switch table leads to the next hops. In a host the driver's NVSwitch table leads to those that
      are NVSwitches, and the driver's plain table to the others. No interface is entered twice. */
  ghost predicate HoldNextHops(net: Net, nodes: seq<Node>, hops: Hops, t: AllTables) {
    && (forall x, dst, y :: x in nodes && net.kind(x) == Host ==>
      && (Leads(net, t.rdmaNV, x, dst, y) <==> y in At(hops, x, dst) && net.kind(y) == NVSwitch)
      && (Leads(net, t.rdma, x, dst, y) <==> y in At(hops, x, dst) && net.kind(y) != NVSwitch))
    && (forall x, dst, y :: x in nodes && net.kind(x) != Host ==>
      (Leads(net, t.switches, x, dst, y) <==> y in At(hops, x, dst)))
    && (forall x, dst :: x in nodes && net.kind(x) == Host ==>
      NoDuplicates(Entry(t.rdma, x, dst)) && NoDuplicates(Entry(t.rdmaNV, x, dst)))
    && (forall x, dst :: x in nodes && net.kind(x) != Host ==> NoDuplicates(Entry(t.switches, x, dst)))
  }

  /** The tables that a node does not have are left alone: a host has no switch table, a switch no driver tables, and
      an NVSwitch's driver only the NVSwitch table. */
  ghost predicate OthersKept(net: Net, before: AllTables, after: AllTables) {
    && (forall x, dst :: net.kind(x) == Host ==> Entry(after.switches, x, dst) == Entry(before.switches, x, dst))
    && (forall x, dst :: net.kind(x) == Switch ==> Entry(after.rdmaNV, x, dst) == Entry(before.rdmaNV, x, dst))
    && (forall x, dst :: net.kind(x) != Host ==> Entry(after.rdma, x, dst) == Entry(before.rdma, x, dst))
  }

  lemma OthersKeptTwice(net: Net, a: AllTables, b: AllTables, c: AllTables)
    requires OthersKept(net, a, b) && OthersKept(net, b, c)
    ensures OthersKept(net, a, c)
  {
  }

  lemma {:induction false} NoneForSlot(net: Net, slot: Slot, x: Node, nexts: seq<Node>)
    requires forall u :: u in nexts ==> !Uses(net, slot, x, u)
    ensures Entries(net, slot, x, nexts) == []
  {
    if nexts != [] {
      NoneForSlot(net, slot, x, nexts[..|nexts| - 1]);
    }
  }

  lemma FilledKeepsOthers(net: Net, hops: Hops, before: AllTables, after: AllTables)
    requires FilledAll(net, hops, before, after)
    ensures OthersKept(net, before, after)
  {
    hide Entry, Entries, At;
    forall x, dst, slot | (forall u :: !Uses(net, slot, x, u))
      ensures Entry(after.At(slot), x, dst) == Entry(before.At(slot), x, dst)
    {
      NoneForSlot(net, slot, x, At(hops, x, dst));
    }
    assert before.At(SwitchSlot) == before.switches && after.At(SwitchSlot) == after.switches;
    assert before.At(NVSlot) == before.rdmaNV && after.At(NVSlot) == after.rdmaNV;
    assert before.At(PlainSlot) == before.rdma && after.At(PlainSlot) == after.rdma;
  }

  lemma ClearedKeepsOthers(net: Net, nodes: seq<Node>, before: AllTables, after: AllTables)
    requires Cleared(net, nodes, before, after)
    ensures OthersKept(net, before, after)
  {
    hide Entry;
    assert before.At(SwitchSlot) == before.switches && after.At(SwitchSlot) == after.switches;
    assert before.At(NVSlot) == before.rdmaNV && after.At(NVSlot) == after.rdmaNV;
    assert before.At(PlainSlot) == before.rdma && after.At(PlainSlot) == after.rdma;
  }

  /** Different next hops have different interfaces, so no interface is entered twice. */
  lemma {:induction false} EntriesDistinct(net: Net, slot: Slot, x: Node, nexts: seq<Node>)
    requires NoDuplicates(nexts) && DistinctIndices(net.links) && forall u :: u in nexts ==> HasLink(net.links, x, u)
    ensures NoDuplicates(Entries(net, slot, x, nexts))
  {
    if nexts != [] {
      var front, next := nexts[..|nexts| - 1], nexts[|nexts| - 1];
      EntriesDistinct(net, slot, x, front);
      var idx := Step(net.links, x, next).idx;
      EntriesIff(net, slot, x, front, idx);
      forall u | u in front ensures Step(net.links, x, u).idx != idx {
        assert u in nexts && next in nexts && u != next;
      }
    }
  }

  lemma EntryOfSlot(net: Net, nodes: seq<Node>, hosts: set<Node>, hops: Hops, t: AllTables,
                    slot: Slot, x: Node, dst: Node)
    requires RoutesFor(net, hosts, hops) && Installed(net, nodes, hops, t) && x in nodes && IsCleared(net, slot, x)
    requires Symmetric(net.links) && DistinctIndices(net.links)
    ensures forall y :: Leads(net, t.At(slot), x, dst, y) <==> y in At(hops, x, dst) && Uses(net, slot, x, y)
    ensures NoDuplicates(Entry(t.At(slot), x, dst))
  {
    var nexts := At(hops, x, dst);
    assert NoDuplicates(nexts) by {
      if dst in hosts {
        assert ListsNextHops(net, dst, x, nexts);
      }
    }
    hide RoutesFor, Symmetric, DistinctIndices, Entry, Entries, At, IsCleared, Uses, NoDuplicates;
    forall u | u in nexts ensures HasLink(net.links, x, u) {
      HopsAreUp(net, hosts, hops, x, dst, u);
    }
    EntriesDistinct(net, slot, x, nexts);
    forall y | HasLink(net.links, x, y)
      ensures net.links[x][y].idx in Entry(t.At(slot), x, dst) <==> y in nexts && Uses(net, slot, x, y)
    {
      EntryIffHop(net, hosts, hops, slot, x, dst, y);
    }
  }

  lemma InstalledHold(net: Net, nodes: seq<Node>, hosts: set<Node>, hops: Hops, t: AllTables)
    requires RoutesFor(net, hosts, hops) && Installed(net, nodes, hops, t)
    requires Symmetric(net.links) && DistinctIndices(net.links)
    ensures HoldNextHops(net, nodes, hops, t)
  {
    hide RoutesFor, Installed, Symmetric, DistinctIndices, Entry, At, Leads, NoDuplicates;
    assert t.At(SwitchSlot) == t.switches && t.At(NVSlot) == t.rdmaNV && t.At(PlainSlot) == t.rdma;
    forall x, dst | x in nodes && net.kind(x) == Host
      ensures forall y ::
        && (Leads(net, t.rdmaNV, x, dst, y) <==> y in At(hops, x, dst) && net.kind(y) == NVSwitch)
        && (Leads(net, t.rdma, x, dst, y) <==> y in At(hops, x, dst) && net.kind(y) != NVSwitch)
      ensures NoDuplicates(Entry(t.rdma, x, dst)) && NoDuplicates(Entry(t.rdmaNV, x, dst))
    {
      EntryOfSlot(net, nodes, hosts, hops, t, NVSlot, x, dst);
      EntryOfSlot(net, nodes, hosts, hops, t, PlainSlot, x, dst);
    }
    forall x, dst | x in nodes && net.kind(x) != Host
      ensures forall y :: Leads(net, t.switches, x, dst, y) <==> y in At(hops, x, dst)
      ensures NoDuplicates(Entry(t.switches, x, dst))
    {
      EntryOfSlot(net, nodes, hosts, hops, t, SwitchSlot, x, dst);
    }
  }
}
