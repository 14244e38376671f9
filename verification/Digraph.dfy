/** Walks, cycles and the levels of a finite directed graph: the vocabulary in which the
    sorting and cycle-finding modules are specified. */
module Digraph {
  import opened Collections

  /** An item of a dependency list: any value that can be compared for equality. */
  type Item(==, !new)

  type Edges = set<(Item, Item)>

  /** The children listed for an item in a parent -> children dictionary. */
  function Lookup(children: map<Item, seq<Item>>, p: Item): seq<Item> {
    if p in children then children[p] else []
  }

  ghost predicate IsWalk(e: Edges, w: seq<Item>) {
    && w != []
    && forall i :: 0 <= i < |w| - 1 ==> (w[i], w[i + 1]) in e
  }

  ghost predicate IsWalkFromTo(e: Edges, w: seq<Item>, a: Item, b: Item) {
    IsWalk(e, w) && w[0] == a && w[|w| - 1] == b
  }

  ghost predicate IsClosedWalk(e: Edges, w: seq<Item>) {
    IsWalk(e, w) && |w| >= 2 && w[0] == w[|w| - 1]
  }

  ghost predicate Cyclic(e: Edges) {
    exists w :: IsClosedWalk(e, w)
  }

  /** x lies on a cycle or can be reached from one. */
  ghost predicate BelowCycle(e: Edges, x: Item) {
    exists c, w :: IsClosedWalk(e, c) && IsWalkFromTo(e, w, c[0], x)
  }

  /** x lies on a cycle or leads into one. */
  ghost predicate AboveCycle(e: Edges, x: Item) {
    exists c, w :: IsClosedWalk(e, c) && IsWalkFromTo(e, w, x, c[0])
  }

  /** A cycle listed once around: distinct items, each the parent of the next, the last the
      parent of the first. */
  ghost predicate IsElementaryCycle(e: Edges, c: seq<Item>) {
    IsWalk(e, c) && NoDuplicates(c) && (c[|c| - 1], c[0]) in e
  }

  // ---------- walks of every length end exactly at the items below a cycle

  lemma WalkRepeats(e: Edges, nodes: set<Item>, w: seq<Item>) returns (i: nat, j: nat)
    requires IsWalk(e, w) && forall i :: 0 <= i < |w| ==> w[i] in nodes
    requires |w| > |nodes|
    ensures i < j < |w| && w[i] == w[j]
  {
    if NoDuplicates(w) {
      DistinctFit(w, nodes);
      assert false;
    }
    i, j :| 0 <= i < j < |w| && w[i] == w[j];
  }

  lemma SubWalk(e: Edges, w: seq<Item>, i: nat, j: nat)
    requires IsWalk(e, w) && i < j <= |w|
    ensures IsWalkFromTo(e, w[i..j], w[i], w[j - 1])
  {
    forall k | 0 <= k < j - i - 1 ensures (w[i..j][k], w[i..j][k + 1]) in e {
      assert (w[i + k], w[i + k + 1]) in e;
    }
  }

  lemma JoinWalks(e: Edges, v: seq<Item>, w: seq<Item>)
    requires IsWalk(e, v) && IsWalk(e, w) && v[|v| - 1] == w[0]
    ensures IsWalkFromTo(e, v + w[1..], v[0], w[|w| - 1])
  {
    var u := v + w[1..];
    forall k | 0 <= k < |u| - 1 ensures (u[k], u[k + 1]) in e {
      if k >= |v| - 1 {
        assert u[k] == w[k + 1 - |v|] && u[k + 1] == w[k + 2 - |v|];
      } else {
        assert (v[k], v[k + 1]) in e;
      }
    }
  }

  /** Going round the cycle often enough gives walks to x of any length. */
  lemma {:induction false} LongWalkBelowCycle(e: Edges, c: seq<Item>, w: seq<Item>, n: nat) returns (long: seq<Item>)
    requires IsClosedWalk(e, c) && IsWalk(e, w) && w[0] == c[0]
    ensures IsWalk(e, long) && |long| == n + 1 && long[n] == w[|w| - 1]
    decreases n + 1 - |w|
  {
    if |w| > n {
      SubWalk(e, w, |w| - n - 1, |w|);
      long := w[|w| - n - 1..];
    } else {
      JoinWalks(e, c, w);
      long := LongWalkBelowCycle(e, c, c + w[1..], n);
    }
  }

  lemma LongWalkMeetsCycle(e: Edges, nodes: set<Item>, w: seq<Item>)
    requires IsWalk(e, w) && forall i :: 0 <= i < |w| ==> w[i] in nodes
    requires |w| > |nodes|
    ensures BelowCycle(e, w[|w| - 1])
  {
    var i, j := WalkRepeats(e, nodes, w);
    SubWalk(e, w, i, j + 1);
    SubWalk(e, w, i, |w|);
    assert IsClosedWalk(e, w[i..j + 1]);
  }

  lemma LongWalkLeavesForCycle(e: Edges, nodes: set<Item>, w: seq<Item>)
    requires IsWalk(e, w) && forall i :: 0 <= i < |w| ==> w[i] in nodes
    requires |w| > |nodes|
    ensures AboveCycle(e, w[0])
  {
    var i, j := WalkRepeats(e, nodes, w);
    SubWalk(e, w, i, j + 1);
    SubWalk(e, w, 0, i + 1);
    assert IsClosedWalk(e, w[i..j + 1]);
  }

  /** Every closed walk contains an elementary cycle. */
  lemma {:induction false} ClosedWalkHasElementaryCycle(e: Edges, w: seq<Item>) returns (c: seq<Item>)
    requires IsClosedWalk(e, w)
    ensures IsElementaryCycle(e, c)
    decreases |w|
  {
    c := w[..|w| - 1];
    SubWalk(e, w, 0, |w| - 1);
    if !NoDuplicates(c) {
      var i, j :| 0 <= i < j < |c| && c[i] == c[j];
      SubWalk(e, w, i, j + 1);
      c := ClosedWalkHasElementaryCycle(e, w[i..j + 1]);
    } else {
      assert (w[|w| - 2], w[|w| - 2 + 1]) in e;
    }
  }

  lemma CyclicIffElementaryCycle(e: Edges)
    ensures Cyclic(e) <==> exists c :: IsElementaryCycle(e, c)
  {
    if Cyclic(e) {
      var w :| IsClosedWalk(e, w);
      var c := ClosedWalkHasElementaryCycle(e, w);
    }
    if c :| IsElementaryCycle(e, c) {
      var w := c + [c[0]];
      forall i | 0 <= i < |w| - 1 ensures (w[i], w[i + 1]) in e {
        if i < |c| - 1 { assert (c[i], c[i + 1]) in e; }
      }
      assert IsClosedWalk(e, w);
    }
  }
}
