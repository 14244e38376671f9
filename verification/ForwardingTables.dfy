/** The forwarding tables that SetRoutingEntries of scratch/common.h fills. */
module ForwardingTables {
  import opened Collections
  import opened PathCosts
  import opened RadUtil
  import opened Routes

  /** m_rtTable and its like, by node and destination. */
  type Tables = map<Node, map<Node, seq<nat>>>

  function Entry(t: Tables, x: Node, dst: Node): seq<nat> {
    if x in t && dst in t[x] then t[x][dst] else []
  }

  function AddEntry(t: Tables, x: Node, dst: Node, idx: nat): Tables {
    t[x := (if x in t then t[x] else map[])[dst := Entry(t, x, dst) + [idx]]]
  }

  lemma EntryAdd(t: Tables, x: Node, dst: Node, idx: nat)
    ensures forall y, d ::
      Entry(AddEntry(t, x, dst, idx), y, d) == Entry(t, y, d) + if y == x && d == dst then [idx] else []
  {
  }

  /** Where a next hop of x goes: its switch table, its driver's table, or its driver's NVSwitch table. */
  datatype Slot = SwitchSlot | PlainSlot | NVSlot

  datatype AllTables = AllTables(switches: Tables, rdma: Tables, rdmaNV: Tables) {
    function At(slot: Slot): Tables {
      match slot
      case SwitchSlot => switches
      case PlainSlot => rdma
      case NVSlot => rdmaNV
    }
  }

  predicate Uses(net: Net, slot: Slot, x: Node, next: Node) {
    match net.kind(x)
    case Switch => slot == SwitchSlot
    case NVSwitch => slot != PlainSlot
    case Host => slot == if net.kind(next) == NVSwitch then NVSlot else PlainSlot
  }

  /** The interfaces one routing pass adds to a table of x for the given next hops. */
  function Entries(net: Net, slot: Slot, x: Node, nexts: seq<Node>): seq<nat> {
    if nexts == [] then []
    else
      var next := nexts[|nexts| - 1];
      Entries(net, slot, x, nexts[..|nexts| - 1]) +
        if Uses(net, slot, x, next) then [Step(net.links, x, next).idx] else []
  }

  lemma {:induction false} EntriesIff(net: Net, slot: Slot, x: Node, nexts: seq<Node>, idx: nat)
    ensures idx in Entries(net, slot, x, nexts) <==>
      exists u :: u in nexts && Uses(net, slot, x, u) && Step(net.links, x, u).idx == idx
  {
    if nexts != [] {
      var front, next := nexts[..|nexts| - 1], nexts[|nexts| - 1];
      EntriesIff(net, slot, x, front, idx);
      assert forall u :: u in nexts <==> u in front || u == next;
    }
  }

  /** The pass has added the entries of every next-hop list, except those of the nodes in nodesLeft and
      of `node` towards the destinations in dstsLeft. */
  ghost predicate Filled(net: Net, hops: Hops, before: AllTables, after: AllTables,
                         nodesLeft: set<Node>, node: Option<Node>, dstsLeft: set<Node>) {
    forall slot, x, d ::
      Entry(after.At(slot), x, d) ==
        if x in nodesLeft || (node == Some(x) && d in dstsLeft) then Entry(before.At(slot), x, d)
        else Entry(before.At(slot), x, d) + Entries(net, slot, x, At(hops, x, d))
  }

  ghost predicate FilledAll(net: Net, hops: Hops, before: AllTables, after: AllTables) {
    forall slot, x, d ::
      Entry(after.At(slot), x, d) == Entry(before.At(slot), x, d) + Entries(net, slot, x, At(hops, x, d))
  }

  /** Only the entries of one list have been added. */
  ghost predicate AddedList(net: Net, before: AllTables, after: AllTables, node: Node, dst: Node, nexts: seq<Node>) {
    forall slot, x, d ::
      Entry(after.At(slot), x, d) ==
        if x == node && d == dst then Entry(before.At(slot), x, d) + Entries(net, slot, x, nexts)
        else Entry(before.At(slot), x, d)
  }

  lemma NothingFilled(net: Net, hops: Hops, before: AllTables)
    ensures Filled(net, hops, before, before, hops.Keys, None, {})
  {
    forall slot, x, d | x !in hops
      ensures Entry(before.At(slot), x, d) == Entry(before.At(slot), x, d) + Entries(net, slot, x, At(hops, x, d))
    {
      assert At(hops, x, d) == [];
    }
  }

  lemma FillNode(net: Net, hops: Hops, before: AllTables, after: AllTables, nodesLeft: set<Node>, node: Node)
    requires node in nodesLeft && nodesLeft <= hops.Keys && Filled(net, hops, before, after, nodesLeft, None, {})
    ensures Filled(net, hops, before, after, nodesLeft - {node}, Some(node), hops[node].Keys)
  {
    hide Entry;
    forall slot, d | d !in hops[node] ensures Entries(net, slot, node, At(hops, node, d)) == [] {
      assert At(hops, node, d) == [];
    }
  }

  lemma FillDst(net: Net, hops: Hops, before: AllTables, after: AllTables, after': AllTables,
                nodesLeft: set<Node>, node: Node, dstsLeft: set<Node>, dst: Node)
    requires node in hops && dst in dstsLeft && dstsLeft <= hops[node].Keys && node !in nodesLeft
    requires Filled(net, hops, before, after, nodesLeft, Some(node), dstsLeft)
    requires AddedList(net, after, after', node, dst, hops[node][dst])
    ensures Filled(net, hops, before, after', nodesLeft, Some(node), dstsLeft - {dst})
  {
    hide Entry, Entries;
    assert At(hops, node, dst) == hops[node][dst];
  }

  lemma LeaveNode(net: Net, hops: Hops, before: AllTables, after: AllTables, nodesLeft: set<Node>, node: Node)
    requires Filled(net, hops, before, after, nodesLeft, Some(node), {})
    ensures Filled(net, hops, before, after, nodesLeft, None, {})
  {
  }

  lemma AllFilled(net: Net, hops: Hops, before: AllTables, after: AllTables)
    requires Filled(net, hops, before, after, {}, None, {})
    ensures FilledAll(net, hops, before, after)
  {
  }

  lemma AddOne(net: Net, before: AllTables, after: AllTables, after': AllTables, node: Node, dst: Node,
               nexts: seq<Node>, next: Node)
    requires AddedList(net, before, after, node, dst, nexts) && AddedList(net, after, after', node, dst, [next])
    ensures AddedList(net, before, after', node, dst, nexts + [next])
  {
    hide Entry;
    forall slot
      ensures Entries(net, slot, node, nexts + [next]) ==
        Entries(net, slot, node, nexts) + Entries(net, slot, node, [next])
    {
      assert (nexts + [next])[..|nexts|] == nexts;
      assert [next][..0] == [];
    }
  }

  lemma NothingAdded(net: Net, before: AllTables, node: Node, dst: Node)
    ensures AddedList(net, before, before, node, dst, [])
  {
  }

  lemma OneEntry(net: Net, node: Node, next: Node)
    ensures forall slot ::
      Entries(net, slot, node, [next]) == if Uses(net, slot, node, next) then [Step(net.links, node, next).idx] else []
  {
    assert [next][..0] == [];
  }

  lemma AddedToSlots(net: Net, before: AllTables, after: AllTables, node: Node, dst: Node, next: Node)
    requires forall slot ::
      after.At(slot) ==
        if Uses(net, slot, node, next) then AddEntry(before.At(slot), node, dst, Step(net.links, node, next).idx)
        else before.At(slot)
    ensures AddedList(net, before, after, node, dst, [next])
  {
    forall slot, x, d
      ensures Entry(after.At(slot), x, d) ==
        if x == node && d == dst then Entry(before.At(slot), x, d) + Entries(net, slot, x, [next])
        else Entry(before.At(slot), x, d)
    {
      EntryAdd(before.At(slot), node, dst, Step(net.links, node, next).idx);
      OneEntry(net, node, next);
      hide Entry, AddEntry, Entries;
    }
  }

  /** Whether a routing pass starts from an empty table: an NVSwitch's own driver is never cleared. */
  predicate IsCleared(net: Net, slot: Slot, x: Node) {
    if net.kind(x) == Host then slot != SwitchSlot else slot == SwitchSlot
  }

  ghost predicate Cleared(net: Net, nodes: seq<Node>, before: AllTables, after: AllTables) {
    forall slot, x, d ::
      Entry(after.At(slot), x, d) == if x in nodes && IsCleared(net, slot, x) then [] else Entry(before.At(slot), x, d)
  }

  lemma ClearOne(net: Net, nodes: seq<Node>, i: nat, before: AllTables, sofar: AllTables, after: AllTables)
    requires i < |nodes| && Cleared(net, nodes[..i], before, sofar)
    requires after == if net.kind(nodes[i]) != Host then sofar.(switches := sofar.switches[nodes[i] := map[]])
                      else sofar.(rdma := sofar.rdma[nodes[i] := map[]], rdmaNV := sofar.rdmaNV[nodes[i] := map[]])
    ensures Cleared(net, nodes[..i + 1], before, after)
  {
    forall slot, x, d
      ensures Entry(after.At(slot), x, d) ==
        if x == nodes[i] && IsCleared(net, slot, x) then [] else Entry(sofar.At(slot), x, d)
    {
    }
    TakeOneMore(nodes, i);
    assert forall x :: x in nodes[..i + 1] <==> x in nodes[..i] || x == nodes[i];
  }

  lemma EmptyIsCleared(net: Net, nodes: seq<Node>, empty: AllTables)
    requires empty == AllTables(map[], map[], map[])
    ensures Cleared(net, nodes, empty, empty)
  {
    assert forall slot :: empty.At(slot) == map[];
  }

  /** The tables hold exactly the entries for the current next hops. */
  ghost predicate Installed(net: Net, nodes: seq<Node>, hops: Hops, t: AllTables) {
    forall slot, x, d :: x in nodes && IsCleared(net, slot, x) ==>
      Entry(t.At(slot), x, d) == Entries(net, slot, x, At(hops, x, d))
  }

  /** An NVSwitch's own driver table keeps what it had and gains the new entries. */
  ghost predicate DriversAppended(net: Net, nodes: seq<Node>, hops: Hops, before: AllTables, t: AllTables) {
    forall x, d :: x in nodes && net.kind(x) == NVSwitch ==>
      Entry(t.rdmaNV, x, d) == Entry(before.rdmaNV, x, d) + Entries(net, NVSlot, x, At(hops, x, d))
  }

  lemma ClearedThenFilled(net: Net, nodes: seq<Node>, hops: Hops, before: AllTables, cleared: AllTables,
                          after: AllTables)
    requires Cleared(net, nodes, before, cleared) && FilledAll(net, hops, cleared, after)
    ensures Installed(net, nodes, hops, after) && DriversAppended(net, nodes, hops, before, after)
  {
    hide Entry, Entries;
    forall slot, x, d | x in nodes && IsCleared(net, slot, x)
      ensures Entry(after.At(slot), x, d) == Entries(net, slot, x, At(hops, x, d))
    {
      assert Entry(cleared.At(slot), x, d) == [];
    }
    forall x, d | x in nodes && net.kind(x) == NVSwitch
      ensures Entry(after.rdmaNV, x, d) == Entry(before.rdmaNV, x, d) + Entries(net, NVSlot, x, At(hops, x, d))
    {
      assert Entry(after.At(NVSlot), x, d) == Entry(cleared.At(NVSlot), x, d) + Entries(net, NVSlot, x, At(hops, x, d));
    }
  }
}
