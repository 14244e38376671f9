/** bindings/python/topsort.py, the two dependency sorts.

    A Python dictionary is a map; its key order is arbitrary, so the sorts are verified for every
    order in which ZeroKeys may list the keys. */
module Topsort {
  import opened Collections
  import opened Digraph

  type Pairs = seq<(Item, Item)>

  /** The items to be sorted and the (parent, child) pairs between them, repeats included. */
  datatype Graph = Graph(nodes: set<Item>, pairs: Pairs) {
    ghost predicate Valid() {
      forall i :: 0 <= i < |pairs| ==> pairs[i].0 in nodes && pairs[i].1 in nodes
    }

    ghost function Edges(): Edges {
      set p | p in pairs
    }

    /** The items that never get sorted. */
    ghost function Leftover(): set<Item> {
      set x | x in nodes && BelowCycle(Edges(), x)
    }
  }

  function Endpoints(pairs: Pairs): set<Item> {
    (set p | p in pairs :: p.0) + (set p | p in pairs :: p.1)
  }

  function FromPairs(pairs: Pairs): Graph {
    Graph(Endpoints(pairs), pairs)
  }

  lemma PairsAreValid(pairs: Pairs)
    ensures FromPairs(pairs).Valid()
  {
    forall i | 0 <= i < |pairs| ensures pairs[i].0 in Endpoints(pairs) && pairs[i].1 in Endpoints(pairs) {
      assert pairs[i] in pairs;
    }
  }

  // ---------- levels

  /** The items whose every ancestor chain is used up after k rounds of removing parentless items. */
  ghost function Peeled(g: Graph, k: nat): set<Item> {
    if k == 0 then {}
    else set x | x in g.nodes && forall p :: (p, x) in g.pairs ==> p in Peeled(g, k - 1)
  }

  ghost function Level(g: Graph, k: nat): set<Item> {
    Peeled(g, k + 1) - Peeled(g, k)
  }

  /** A chain of k ancestors above x: a walk of k steps that ends at x. */
  ghost predicate HasChain(g: Graph, x: Item, k: nat) {
    exists w :: IsWalk(g.Edges(), w) && |w| == k + 1 && w[k] == x
  }

  lemma PeeledStart(g: Graph)
    ensures Peeled(g, 0) == {}
  {
  }

  lemma {:induction false} PeeledGrows(g: Graph, k: nat, m: nat)
    requires k <= m
    ensures Peeled(g, k) <= Peeled(g, m)
  {
    if k > 0 {
      PeeledGrows(g, k - 1, m - 1);
    }
  }

  lemma {:induction false} PeeledIffNoChain(g: Graph, x: Item, k: nat)
    requires g.Valid() && x in g.nodes
    ensures x in Peeled(g, k) <==> !HasChain(g, x, k)
  {
    var e := g.Edges();
    if k == 0 {
      assert IsWalk(e, [x]);
    } else {
      forall p | (p, x) in g.pairs ensures p in Peeled(g, k - 1) <==> !HasChain(g, p, k - 1) {
        PeeledIffNoChain(g, p, k - 1);
      }
      if HasChain(g, x, k) {
        var w :| IsWalk(e, w) && |w| == k + 1 && w[k] == x;
        SubWalk(e, w, 0, k);
        assert (w[k - 1], w[k - 1 + 1]) in e;
        assert HasChain(g, w[k - 1], k - 1);
      }
      if x !in Peeled(g, k) {
        var p :| (p, x) in g.pairs && p !in Peeled(g, k - 1);
        var w :| IsWalk(e, w) && |w| == k && w[k - 1] == p;
        JoinWalks(e, w, [p, x]);
      }
    }
  }

  /** The level of an item is the length of its longest chain of ancestors. */
  lemma LevelIsLongestChain(g: Graph, x: Item, k: nat)
    requires g.Valid() && x in g.nodes
    ensures x in Level(g, k) <==> HasChain(g, x, k) && !HasChain(g, x, k + 1)
  {
    PeeledIffNoChain(g, x, k);
    PeeledIffNoChain(g, x, k + 1);
  }

  lemma WalkStaysInside(g: Graph, w: seq<Item>)
    requires g.Valid() && IsWalk(g.Edges(), w) && w[|w| - 1] in g.nodes
    ensures forall i :: 0 <= i < |w| ==> w[i] in g.nodes
  {
    forall i | 0 <= i < |w| - 1 ensures w[i] in g.nodes {
      assert (w[i], w[i + 1]) in g.pairs;
    }
  }

  /** Peeling stops after at most |nodes| rounds, and what it leaves is what hangs below a cycle. */
  lemma PeelingLeavesCycles(g: Graph)
    requires g.Valid()
    ensures Peeled(g, |g.nodes|) == g.nodes - g.Leftover()
    ensures forall k :: Peeled(g, k) <= g.nodes - g.Leftover()
  {
    var e := g.Edges();
    forall x, k: nat | x in g.Leftover() ensures x !in Peeled(g, k) {
      var c, w :| IsClosedWalk(e, c) && IsWalkFromTo(e, w, c[0], x);
      var long := LongWalkBelowCycle(e, c, w, k);
      PeeledIffNoChain(g, x, k);
    }
    forall x | x in g.nodes && x !in Peeled(g, |g.nodes|) ensures x in g.Leftover() {
      PeeledIffNoChain(g, x, |g.nodes|);
      var w :| IsWalk(e, w) && |w| == |g.nodes| + 1 && w[|g.nodes|] == x;
      WalkStaysInside(g, w);
      LongWalkMeetsCycle(e, g.nodes, w);
    }
  }

  lemma LeftoverIffCyclic(g: Graph)
    requires g.Valid()
    ensures g.Leftover() == {} <==> !Cyclic(g.Edges())
  {
    if Cyclic(g.Edges()) {
      var c :| IsClosedWalk(g.Edges(), c);
      assert (c[0], c[0 + 1]) in g.pairs;
      assert IsWalkFromTo(g.Edges(), [c[0]], c[0], c[0]);
      assert c[0] in g.Leftover();
    }
  }

  /** What is not yet peeled but has only peeled parents never survives a round. */
  lemma {:induction false} PeeledInsideClosed(g: Graph, done: set<Item>, k: nat)
    requires g.Valid()
    requires forall x :: x in g.nodes - done ==> exists p :: (p, x) in g.pairs && p !in done
    ensures Peeled(g, k) <= done
  {
    if k > 0 {
      PeeledInsideClosed(g, done, k - 1);
      forall x | x in g.nodes && x !in done ensures x !in Peeled(g, k) {
        assert x in g.nodes - done;
        var p :| (p, x) in g.pairs && p !in done;
      }
    }
  }

  // ---------- the two dictionaries

  /** How many pairs lead into x from a parent that has not been removed. */
  ghost function Count(pairs: Pairs, x: Item, removed: set<Item>): nat {
    if pairs == [] then 0
    else
      var (p, c) := pairs[|pairs| - 1];
      Count(pairs[..|pairs| - 1], x, removed) + if c == x && p !in removed then 1 else 0
  }

  function ChildrenOf(pairs: Pairs, p: Item): seq<Item> {
    if pairs == [] then []
    else
      var (q, c) := pairs[|pairs| - 1];
      ChildrenOf(pairs[..|pairs| - 1], p) + if q == p then [c] else []
  }

  lemma {:induction false} CountZero(pairs: Pairs, x: Item, removed: set<Item>)
    ensures Count(pairs, x, removed) == 0 <==> forall p :: (p, x) in pairs ==> p in removed
  {
    if pairs != [] {
      var front, last := pairs[..|pairs| - 1], pairs[|pairs| - 1];
      CountZero(front, x, removed);
      assert pairs == front + [last];
      assert forall p :: (p, x) in pairs <==> (p, x) in front || (p, x) == last;
      assert last.1 == x ==> (last.0, x) in pairs;
    }
  }

  lemma {:induction false} CountRemove(pairs: Pairs, x: Item, removed: set<Item>, p: Item)
    requires p !in removed
    ensures Count(pairs, x, removed) == Count(pairs, x, removed + {p}) + multiset(ChildrenOf(pairs, p))[x]
  {
    if pairs != [] {
      CountRemove(pairs[..|pairs| - 1], x, removed, p);
    }
  }

  lemma {:induction false} ChildrenAreEdges(pairs: Pairs, p: Item, c: Item)
    ensures c in ChildrenOf(pairs, p) <==> (p, c) in pairs
  {
    if pairs != [] {
      var front, last := pairs[..|pairs| - 1], pairs[|pairs| - 1];
      ChildrenAreEdges(front, p, c);
      assert pairs == front + [last];
      assert (p, c) in pairs <==> (p, c) in front || (p, c) == last;
      assert c in ChildrenOf(pairs, p) <==> c in ChildrenOf(front, p) || (last.0 == p && c == last.1);
    }
  }

  /** The dictionaries describe g once the items of `removed` are gone. */
  ghost predicate Describes(g: Graph, removed: set<Item>, numParents: map<Item, int>, children: map<Item, seq<Item>>) {
    && numParents.Keys == g.nodes - removed
    && (forall x :: x in numParents ==> numParents[x] == Count(g.pairs, x, removed))
    && children.Keys <= g.nodes - removed
    && (forall p :: p in g.nodes - removed ==> Lookup(children, p) == ChildrenOf(g.pairs, p))
  }

  /** p's key is deleted, and its children from position k on still wait to be knocked down. */
  ghost predicate Removing(g: Graph, removed: set<Item>, p: Item, kids: seq<Item>, k: nat, numParents: map<Item, int>) {
    && k <= |kids|
    && numParents.Keys == g.nodes - removed - {p}
    && (forall x :: x in numParents ==> numParents[x] == Count(g.pairs, x, removed + {p}) + multiset(kids[k..])[x])
    && (forall c :: c in kids ==> c in numParents)
  }

  /** Everything removed had all its parents removed. */
  ghost predicate Closed(g: Graph, removed: set<Item>) {
    forall p, x :: (p, x) in g.pairs && x in removed ==> p in removed
  }

  lemma StartRemoving(g: Graph, removed: set<Item>, p: Item, numParents: map<Item, int>, children: map<Item, seq<Item>>)
    requires g.Valid() && Closed(g, removed) && Describes(g, removed, numParents, children)
    requires p in numParents && numParents[p] == 0
    ensures Removing(g, removed, p, ChildrenOf(g.pairs, p), 0, numParents - {p})
    ensures Closed(g, removed + {p})
  {
    CountZero(g.pairs, p, removed);
    forall x | x in numParents - {p}
      ensures numParents[x] == Count(g.pairs, x, removed + {p}) + multiset(ChildrenOf(g.pairs, p))[x]
    {
      CountRemove(g.pairs, x, removed, p);
    }
    forall c | c in ChildrenOf(g.pairs, p) ensures c in numParents - {p} {
      ChildrenAreEdges(g.pairs, p, c);
    }
  }

  lemma KnockDown(g: Graph, removed: set<Item>, p: Item, kids: seq<Item>, k: nat, numParents: map<Item, int>)
    requires k < |kids| && Removing(g, removed, p, kids, k, numParents)
    ensures kids[k] in numParents && numParents[kids[k]] > 0
    ensures Removing(g, removed, p, kids, k + 1, numParents[kids[k] := numParents[kids[k]] - 1])
  {
    hide Count;
    assert kids[k..] == [kids[k]] + kids[k + 1..];
    assert kids[k] in kids;
  }

  lemma NewcomerHasNothing(pairs: Pairs, x: Item)
    requires x !in Endpoints(pairs)
    ensures Count(pairs, x, {}) == 0 && ChildrenOf(pairs, x) == []
  {
    CountZero(pairs, x, {});
    assert forall p | p in pairs :: p.0 in Endpoints(pairs) && p.1 in Endpoints(pairs);
    if ChildrenOf(pairs, x) != [] {
      ChildrenAreEdges(pairs, x, ChildrenOf(pairs, x)[0]);
      assert false;
    }
  }

  lemma AddPairAt(before: Pairs, parent: Item, child: Item, x: Item)
    ensures var after := before + [(parent, child)];
      && (x in Endpoints(after) <==> x in Endpoints(before) || x == parent || x == child)
      && Count(after, x, {}) == Count(before, x, {}) + (if x == child then 1 else 0)
      && ChildrenOf(after, x) == ChildrenOf(before, x) + (if x == parent then [child] else [])
  {
    var after := before + [(parent, child)];
    assert after[..|after| - 1] == before;
    assert forall p :: p in after <==> p in before || p == (parent, child);
    assert (parent, child) in after;
  }

  function AddKey(numParents: map<Item, int>, x: Item): map<Item, int> {
    if x in numParents then numParents else numParents[x := 0]
  }

  /** What the dictionaries say about x after one more pair. */
  lemma AddPairFor(before: Pairs, parent: Item, child: Item, numParents: map<Item, int>,
                   children: map<Item, seq<Item>>, x: Item)
    requires Describes(FromPairs(before), {}, numParents, children)
    ensures var after := before + [(parent, child)];
      var keyed := AddKey(AddKey(numParents, parent), child);
      var counted := keyed[child := keyed[child] + 1];
      && (x in counted <==> x in Endpoints(after))
      && (x in counted ==> counted[x] == Count(after, x, {}))
      && Lookup(children[parent := Lookup(children, parent) + [child]], x) == ChildrenOf(after, x)
  {
    hide Count, ChildrenOf, Endpoints;
    AddPairAt(before, parent, child, x);
    if x !in Endpoints(before) { NewcomerHasNothing(before, x); }
    assert x in numParents <==> x in Endpoints(before);
  }

  lemma AddPair(before: Pairs, parent: Item, child: Item, numParents: map<Item, int>, children: map<Item, seq<Item>>)
    requires Describes(FromPairs(before), {}, numParents, children)
    ensures Describes(FromPairs(before + [(parent, child)]), {},
      var keyed := AddKey(AddKey(numParents, parent), child); keyed[child := keyed[child] + 1],
      children[parent := Lookup(children, parent) + [child]])
  {
    hide Count, ChildrenOf, Endpoints, Lookup;
    var after := before + [(parent, child)];
    var keyed := AddKey(AddKey(numParents, parent), child);
    var counted, listed := keyed[child := keyed[child] + 1], children[parent := Lookup(children, parent) + [child]];
    forall x
      ensures x in counted <==> x in Endpoints(after)
      ensures x in counted ==> counted[x] == Count(after, x, {})
      ensures Lookup(listed, x) == ChildrenOf(after, x)
    {
      AddPairFor(before, parent, child, numParents, children, x);
    }
    AddPairAt(before, parent, child, parent);
    forall x | x in listed ensures x in Endpoints(after) {
      AddPairAt(before, parent, child, x);
    }
    assert counted.Keys == Endpoints(after);
  }

  method BuildTables(pairlist: Pairs) returns (numParents: map<Item, int>, children: map<Item, seq<Item>>)
    ensures Describes(FromPairs(pairlist), {}, numParents, children)
    ensures forall p :: p in children ==> children[p] != []
  {
    numParents, children := map[], map[];
    for i := 0 to |pairlist|
      invariant Describes(FromPairs(pairlist[..i]), {}, numParents, children)
      invariant forall p :: p in children ==> children[p] != []
    {
      var (parent, child) := pairlist[i];
      AddPair(pairlist[..i], parent, child, numParents, children);
      TakeOneMore(pairlist, i);
      numParents := AddKey(AddKey(numParents, parent), child);
      numParents := numParents[child := numParents[child] + 1];
      children := children[parent := Lookup(children, parent) + [child]];
    }
    assert pairlist[..|pairlist|] == pairlist;
  }

  /** `[x for x in num_parents.keys() if num_parents[x] == 0]`, in any order. */
  method ZeroKeys(numParents: map<Item, int>) returns (zeros: seq<Item>)
    ensures NoDuplicates(zeros)
    ensures forall x :: x in zeros <==> x in numParents && numParents[x] == 0
  {
    zeros := [];
    var left := numParents.Keys;
    while left != {}
      invariant left <= numParents.Keys
      invariant NoDuplicates(zeros)
      invariant forall x :: x in zeros <==> x in numParents.Keys - left && numParents[x] == 0
      decreases |left|
    {
      var x :| x in left;
      left := left - {x};
      if numParents[x] == 0 {
        zeros := zeros + [x];
      }
    }
  }

  // ---------- topsort

  datatype TopsortResult =
    | Sorted(answer: seq<Item>)
    | CycleError(answer: seq<Item>, numParents: map<Item, int>, children: map<Item, seq<Item>>)

  /** What a CycleError carries: the leftover items with their counts of leftover parents, and the
      children lists of those leftover items that have any. */
  ghost predicate LeftoverTables(g: Graph, numParents: map<Item, int>, children: map<Item, seq<Item>>) {
    && numParents.Keys == g.Leftover() != {}
    && (forall x :: x in numParents ==> numParents[x] == Count(g.pairs, x, g.nodes - g.Leftover()) > 0)
    && (forall p :: p in g.Leftover() ==> Lookup(children, p) == ChildrenOf(g.pairs, p))
    && children.Keys <= g.Leftover()
  }

  /** When no key is parentless any more, what is left is what hangs below a cycle. */
  lemma NoParentlessLeft(g: Graph, removed: set<Item>, numParents: map<Item, int>, children: map<Item, seq<Item>>)
    requires g.Valid() && Describes(g, removed, numParents, children)
    requires forall x :: x in numParents ==> numParents[x] != 0
    requires removed <= g.nodes - g.Leftover()
    ensures removed == g.nodes - g.Leftover()
  {
    hide BelowCycle, Count, ChildrenOf;
    forall x | x in g.nodes - removed ensures exists p :: (p, x) in g.pairs && p !in removed {
      assert x in numParents;
      CountZero(g.pairs, x, removed);
    }
    PeelingLeavesCycles(g);
    PeeledInsideClosed(g, removed, |g.nodes|);
  }

  lemma LeftoverIsCycleError(g: Graph, removed: set<Item>, numParents: map<Item, int>, children: map<Item, seq<Item>>)
    requires g.Valid() && Describes(g, removed, numParents, children)
    requires forall x :: x in numParents ==> numParents[x] != 0
    requires removed == g.nodes - g.Leftover()
    ensures numParents == map[] <==> !Cyclic(g.Edges())
    ensures numParents != map[] ==> LeftoverTables(g, numParents, children)
  {
    hide BelowCycle, Count, ChildrenOf, Cyclic;
    LeftoverIffCyclic(g);
    assert numParents.Keys == g.Leftover();
  }

  /** What the comment above the raise should say: a leftover item has a leftover parent. */
  lemma LeftoverHasLeftoverParent(g: Graph, numParents: map<Item, int>, children: map<Item, seq<Item>>, x: Item)
    requires g.Valid() && LeftoverTables(g, numParents, children) && x in numParents
    ensures exists p :: (p, x) in g.pairs && p in g.Leftover()
  {
    CountZero(g.pairs, x, g.nodes - g.Leftover());
    var p :| (p, x) in g.pairs && p !in g.nodes - g.Leftover();
    var i :| 0 <= i < |g.pairs| && g.pairs[i] == (p, x);
    assert g.pairs[i].0 in g.nodes;
  }

  /** It says that a leftover item has a child, which fails below a cycle: here for b. */
  lemma LeftoverWithoutChild(a: Item, b: Item)
    requires a != b
    ensures b in FromPairs([(a, a), (a, b)]).Leftover() && ChildrenOf([(a, a), (a, b)], b) == []
  {
    var pairs := [(a, a), (a, b)];
    var e := FromPairs(pairs).Edges();
    assert pairs[0] in pairs && pairs[1] in pairs;
    assert pairs[1].1 in Endpoints(pairs);
    assert IsClosedWalk(e, [a, a]) && IsWalkFromTo(e, [a, b], [a, a][0], b);
    assert b !in [a];
    if ChildrenOf(pairs, b) != [] {
      ChildrenAreEdges(pairs, b, ChildrenOf(pairs, b)[0]);
    }
  }

  ghost predicate HasChild(g: Graph, x: Item) {
    exists y :: (x, y) in g.pairs
  }

  lemma ChildOfLeftover(g: Graph, x: Item, y: Item)
    requires g.Valid() && x in g.Leftover() && (x, y) in g.pairs
    ensures y in g.Leftover()
  {
    var e := g.Edges();
    var c, w :| IsClosedWalk(e, c) && IsWalkFromTo(e, w, c[0], x);
    JoinWalks(e, w, [x, y]);
    var i :| 0 <= i < |g.pairs| && g.pairs[i] == (x, y);
    assert g.pairs[i].1 in g.nodes;
  }

  /** Where every leftover item has a child, one can walk on from each as far as one likes. */
  lemma {:induction false} WalkOn(g: Graph, x: Item, n: nat) returns (w: seq<Item>)
    requires g.Valid() && x in g.Leftover() && forall y :: y in g.Leftover() ==> HasChild(g, y)
    ensures IsWalk(g.Edges(), w) && |w| == n + 1 && w[0] == x && forall i :: 0 <= i <= n ==> w[i] in g.nodes
  {
    hide BelowCycle;
    if n == 0 {
      w := [x];
    } else {
      var y :| (x, y) in g.pairs;
      ChildOfLeftover(g, x, y);
      var rest := WalkOn(g, y, n - 1);
      JoinWalks(g.Edges(), [x, y], rest);
      w := [x] + rest;
      assert w == [x, y] + rest[1..];
    }
  }

  lemma CycleAheadHasChild(g: Graph, x: Item)
    requires AboveCycle(g.Edges(), x)
    ensures HasChild(g, x)
  {
    var c, w :| IsClosedWalk(g.Edges(), c) && IsWalkFromTo(g.Edges(), w, x, c[0]);
    assert (c[0], c[0 + 1]) in g.pairs;
    if |w| > 1 {
      assert (w[0], w[0 + 1]) in g.pairs;
    }
  }

  /** When the comment is right: every leftover item has a child exactly if every leftover item, which by
      itself lies on or below a cycle, also lies on or above one. */
  lemma LeftoverHaveChildren(g: Graph)
    requires g.Valid()
    ensures (forall x :: x in g.Leftover() ==> HasChild(g, x)) <==>
      (forall x :: x in g.Leftover() ==> AboveCycle(g.Edges(), x))
  {
    hide BelowCycle, AboveCycle, HasChild;
    if forall x :: x in g.Leftover() ==> HasChild(g, x) {
      forall x | x in g.Leftover() ensures AboveCycle(g.Edges(), x) {
        var w := WalkOn(g, x, |g.nodes|);
        LongWalkLeavesForCycle(g.Edges(), g.nodes, w);
      }
    }
    forall x | AboveCycle(g.Edges(), x) ensures HasChild(g, x) {
      CycleAheadHasChild(g, x);
    }
  }

  /** The same of the dictionaries a CycleError carries: every key of num_parents has children listed
      exactly if every key leads into a cycle. */
  lemma CycleErrorHasChildren(g: Graph, numParents: map<Item, int>, children: map<Item, seq<Item>>)
    requires g.Valid() && LeftoverTables(g, numParents, children)
    ensures (forall x :: x in numParents ==> Lookup(children, x) != []) <==>
      (forall x :: x in numParents ==> AboveCycle(g.Edges(), x))
  {
    hide BelowCycle, AboveCycle;
    LeftoverHaveChildren(g);
    forall x | x in numParents ensures Lookup(children, x) != [] <==> HasChild(g, x) {
      var kids := ChildrenOf(g.pairs, x);
      assert Lookup(children, x) == kids;
      forall y ensures y in kids <==> (x, y) in g.pairs {
        ChildrenAreEdges(g.pairs, x, y);
      }
      if kids != [] {
        assert kids[0] in kids;
      }
    }
  }

  /** Each parent stands before each of its children. */
  ghost predicate ParentsFirst(g: Graph, s: seq<Item>) {
    forall p, j :: 0 <= j < |s| && (p, s[j]) in g.pairs ==> p in s[..j]
  }

  /** s lists level after level: its first |Peeled(k)| items are the first k levels. */
  ghost predicate LevelByLevel(g: Graph, s: seq<Item>) {
    forall k: nat :: |Peeled(g, k)| <= |s| && Elements(s[..|Peeled(g, k)|]) == Peeled(g, k)
  }

  /** What topsort lists: every item that hangs below no cycle, once, parents first, level by level. */
  ghost predicate IsDependencyOrder(g: Graph, s: seq<Item>) {
    && NoDuplicates(s)
    && Elements(s) == g.nodes - g.Leftover()
    && ParentsFirst(g, s)
    && LevelByLevel(g, s)
  }

  /** lev gives the level of each item of s, and the levels never fall. */
  ghost predicate Leveled(g: Graph, s: seq<Item>, lev: seq<nat>) {
    && |lev| == |s|
    && (forall j :: 0 <= j < |s| ==> s[j] in Level(g, lev[j]))
    && (forall i, j :: 0 <= i < j < |s| ==> lev[i] <= lev[j])
  }

  lemma LevelCut(g: Graph, s: seq<Item>, lev: seq<nat>, k: nat) returns (n: nat)
    requires Leveled(g, s, lev) && Peeled(g, k) <= Elements(s)
    ensures n <= |s| && Elements(s[..n]) == Peeled(g, k)
  {
    n := 0;
    while n < |s| && lev[n] < k
      invariant n <= |s|
      invariant forall j :: 0 <= j < n ==> lev[j] < k
    {
      n := n + 1;
    }
    forall j | 0 <= j < |s| ensures s[j] in Peeled(g, k) <==> j < n {
      assert s[j] in Level(g, lev[j]);
      if lev[j] < k {
        PeeledGrows(g, lev[j] + 1, k);
      } else {
        PeeledGrows(g, k, lev[j]);
      }
    }
    forall x ensures x in s[..n] <==> x in Peeled(g, k) {
      if x in Peeled(g, k) {
        assert x in Elements(s);
        var j :| 0 <= j < |s| && s[j] == x;
      }
    }
  }

  lemma LeveledIsLevelByLevel(g: Graph, s: seq<Item>, lev: seq<nat>)
    requires NoDuplicates(s) && Leveled(g, s, lev)
    requires forall k: nat :: Peeled(g, k) <= Elements(s)
    ensures LevelByLevel(g, s)
  {
    forall k: nat ensures |Peeled(g, k)| <= |s| && Elements(s[..|Peeled(g, k)|]) == Peeled(g, k) {
      var n := LevelCut(g, s, lev, k);
      SizeOfElements(s[..n]);
    }
  }

  /** The items removed so far are a prefix of `answer`; the rest of `answer` is the queue of exactly
      the parentless items. */
  ghost predicate Queued(g: Graph, answer: seq<Item>, lev: seq<nat>, removed: set<Item>, numParents: map<Item, int>) {
    && NoDuplicates(answer) && ParentsFirst(g, answer) && Leveled(g, answer, lev)
    && Closed(g, removed)
    && removed <= Elements(answer)
    && (forall j :: 0 <= j < |answer| && answer[j] !in removed ==>
      answer[j] in numParents && numParents[answer[j]] == 0)
    && (forall x :: x in numParents && numParents[x] == 0 ==> x in answer)
  }

  /** Between two turns of the main loop, with i items processed. */
  ghost predicate SortState(g: Graph, answer: seq<Item>, lev: seq<nat>, removed: set<Item>, i: nat,
                            numParents: map<Item, int>) {
    && Queued(g, answer, lev, removed, numParents)
    && (forall j :: 0 <= j < |answer| ==> (answer[j] in removed <==> j < i))
    && (forall j :: 0 <= j < |answer| && i < |answer| ==> lev[j] <= lev[i] + 1)
  }

  /** While the children of item i are knocked down, k of them so far, no queued level is more than one deeper. */
  ghost predicate Scanning(g: Graph, answer: seq<Item>, lev: seq<nat>, removed: set<Item>, i: nat,
                           kids: seq<Item>, k: nat, numParents: map<Item, int>) {
    && i < |answer|
    && Queued(g, answer, lev, removed + {answer[i]}, numParents)
    && Removing(g, removed, answer[i], kids, k, numParents)
    && (forall j :: 0 <= j < |answer| ==> (answer[j] in removed <==> j < i))
    && (forall j :: 0 <= j < |answer| ==> lev[j] <= lev[i] + 1)
    && (forall c :: c in kids ==> (answer[i], c) in g.pairs)
  }

  lemma SortStart(g: Graph, answer: seq<Item>, lev: seq<nat>, numParents: map<Item, int>,
                  children: map<Item, seq<Item>>)
    requires Describes(g, {}, numParents, children) && NoDuplicates(answer)
    requires forall x :: x in answer <==> x in numParents && numParents[x] == 0
    requires |lev| == |answer| && forall j :: 0 <= j < |lev| ==> lev[j] == 0
    ensures SortState(g, answer, lev, {}, 0, numParents)
  {
    forall j | 0 <= j < |answer| ensures answer[j] in Level(g, 0) && forall p :: (p, answer[j]) !in g.pairs {
      assert answer[j] in answer;
      CountZero(g.pairs, answer[j], {});
    }
  }

  /** The last parent of c to go decides its level: the queue is served level by level. */
  lemma LastParentDecides(g: Graph, answer: seq<Item>, lev: seq<nat>, removed: set<Item>, i: nat, c: Item)
    requires i < |answer| && Leveled(g, answer, lev) && c in g.nodes && removed <= Elements(answer)
    requires forall j :: 0 <= j < |answer| ==> (answer[j] in removed <==> j < i)
    requires (answer[i], c) in g.pairs && Count(g.pairs, c, removed + {answer[i]}) == 0
    ensures c in Level(g, lev[i] + 1)
    ensures forall p :: (p, c) in g.pairs ==> p in answer
  {
    CountZero(g.pairs, c, removed + {answer[i]});
    forall p | (p, c) in g.pairs ensures p in Peeled(g, lev[i] + 1) && p in answer {
      assert p in removed || p == answer[i];
      var j := i;
      if p in removed {
        j :| 0 <= j < |answer| && answer[j] == p;
      }
      assert answer[j] in Level(g, lev[j]);
      PeeledGrows(g, lev[j] + 1, lev[i] + 1);
    }
    assert answer[i] in Level(g, lev[i]);
    assert answer[i] !in Peeled(g, lev[i]);
  }

  lemma AppendSorted(g: Graph, answer: seq<Item>, lev: seq<nat>, c: Item, k: nat)
    requires NoDuplicates(answer) && ParentsFirst(g, answer) && Leveled(g, answer, lev)
    requires c !in answer && c in Level(g, k)
    requires forall j :: 0 <= j < |answer| ==> lev[j] <= k
    requires forall p :: (p, c) in g.pairs ==> p in answer
    ensures NoDuplicates(answer + [c]) && ParentsFirst(g, answer + [c]) && Leveled(g, answer + [c], lev + [k])
  {
    var s := answer + [c];
    forall p, j | 0 <= j < |s| && (p, s[j]) in g.pairs ensures p in s[..j] {
      assert s[..j] == answer[..j];
    }
  }

  lemma ScanStep(g: Graph, answer: seq<Item>, lev: seq<nat>, removed: set<Item>, i: nat,
                 kids: seq<Item>, k: nat, numParents: map<Item, int>)
    returns (answer': seq<Item>, lev': seq<nat>)
    requires g.Valid() && k < |kids| && Scanning(g, answer, lev, removed, i, kids, k, numParents)
    ensures kids[k] in numParents
    ensures var counted := numParents[kids[k] := numParents[kids[k]] - 1];
      && answer' == (if counted[kids[k]] == 0 then answer + [kids[k]] else answer)
      && Scanning(g, answer', lev', removed, i, kids, k + 1, counted)
    ensures i < |answer| && i < |answer'| && answer'[i] == answer[i]
  {
    hide Count, Closed, Queued;
    var c := kids[k];
    KnockDown(g, removed, answer[i], kids, k, numParents);
    var counted := numParents[c := numParents[c] - 1];
    assert c in kids;
    if counted[c] == 0 {
      QueuedFacts(g, answer, lev, removed + {answer[i]}, numParents);
      LastParentDecides(g, answer, lev, removed, i, c);
      QueueGrows(g, answer, lev, removed + {answer[i]}, numParents, c, lev[i] + 1);
      answer', lev' := answer + [c], lev + [lev[i] + 1];
    } else {
      QueueStays(g, answer, lev, removed + {answer[i]}, numParents, c);
      answer', lev' := answer, lev;
    }
  }

  lemma QueuedFacts(g: Graph, answer: seq<Item>, lev: seq<nat>, removed: set<Item>, numParents: map<Item, int>)
    requires Queued(g, answer, lev, removed, numParents)
    ensures Leveled(g, answer, lev) && removed <= Elements(answer)
  {
  }

  lemma QueueStays(g: Graph, answer: seq<Item>, lev: seq<nat>, removed: set<Item>, numParents: map<Item, int>, c: Item)
    requires Queued(g, answer, lev, removed, numParents)
    requires c in numParents && c !in removed && numParents[c] > 1
    ensures Queued(g, answer, lev, removed, numParents[c := numParents[c] - 1])
  {
    hide NoDuplicates, ParentsFirst, Leveled, Closed;
    assert c !in answer;
  }

  /** An item that has just lost its last parent was not queued before. */
  lemma QueueGrows(g: Graph, answer: seq<Item>, lev: seq<nat>, removed: set<Item>, numParents: map<Item, int>, c: Item,
                   k: nat)
    requires Queued(g, answer, lev, removed, numParents)
    requires c in numParents && c !in removed && numParents[c] == 1
    requires c in Level(g, k) && (forall p :: (p, c) in g.pairs ==> p in answer)
    requires forall j :: 0 <= j < |answer| ==> lev[j] <= k
    ensures Queued(g, answer + [c], lev + [k], removed, numParents[c := numParents[c] - 1])
  {
    assert c !in answer;
    AppendSorted(g, answer, lev, c, k);
    hide NoDuplicates, ParentsFirst, Leveled, Closed;
  }

  lemma ScanEnter(g: Graph, answer: seq<Item>, lev: seq<nat>, removed: set<Item>, i: nat,
                  numParents: map<Item, int>, children: map<Item, seq<Item>>)
    requires g.Valid() && i < |answer|
    requires SortState(g, answer, lev, removed, i, numParents)
    requires Describes(g, removed, numParents, children)
    ensures answer[i] in numParents
    ensures Scanning(g, answer, lev, removed, i, Lookup(children, answer[i]), 0, numParents - {answer[i]})
  {
    StartRemoving(g, removed, answer[i], numParents, children);
    forall c | c in Lookup(children, answer[i]) ensures (answer[i], c) in g.pairs {
      ChildrenAreEdges(g.pairs, answer[i], c);
    }
  }

  lemma FinishRemoving(g: Graph, removed: set<Item>, p: Item, kids: seq<Item>,
                       before: map<Item, int>, numParents: map<Item, int>, children: map<Item, seq<Item>>)
    requires Describes(g, removed, before, children)
    requires Removing(g, removed, p, kids, |kids|, numParents)
    ensures Describes(g, removed + {p}, numParents, children - {p})
    ensures p !in children ==> children - {p} == children
  {
    hide Count, ChildrenOf;
  }

  lemma ScanLeave(g: Graph, answer: seq<Item>, lev: seq<nat>, removed: set<Item>, i: nat,
                  kids: seq<Item>, before: map<Item, int>, numParents: map<Item, int>, children: map<Item, seq<Item>>)
    requires Scanning(g, answer, lev, removed, i, kids, |kids|, numParents)
    requires Describes(g, removed, before, children)
    ensures i < |answer|
    ensures SortState(g, answer, lev, removed + {answer[i]}, i + 1, numParents)
    ensures Describes(g, removed + {answer[i]}, numParents, children - {answer[i]})
    ensures answer[i] !in children ==> children - {answer[i]} == children
  {
    hide Describes, Removing, ParentsFirst, Level, Closed;
    FinishRemoving(g, removed, answer[i], kids, before, numParents, children);
    assert Queued(g, answer, lev, removed + {answer[i]}, numParents);
  }

  lemma SortEnd(g: Graph, answer: seq<Item>, lev: seq<nat>, removed: set<Item>, i: nat,
                numParents: map<Item, int>, children: map<Item, seq<Item>>)
    requires g.Valid() && SortState(g, answer, lev, removed, i, numParents) && i == |answer|
    requires Describes(g, removed, numParents, children)
    ensures IsDependencyOrder(g, answer)
    ensures numParents == map[] <==> !Cyclic(g.Edges())
    ensures numParents != map[] ==> LeftoverTables(g, numParents, children)
  {
    assert Elements(answer) == removed;
    PeelingLeavesCycles(g);
    forall x | x in removed ensures x in g.nodes - g.Leftover() {
      var j :| 0 <= j < |answer| && answer[j] == x;
      assert answer[j] in Level(g, lev[j]);
    }
    NoParentlessLeft(g, removed, numParents, children);
    LeftoverIsCycleError(g, removed, numParents, children);
    LeveledIsLevelByLevel(g, answer, lev);
  }

  // ---------- the order within the queue

  /** A use of a pair: of item number `item` of the answer, its child number `kid`. */
  datatype Use = Use(item: nat, kid: nat)

  predicate Before(a: Use, b: Use) {
    a.item < b.item || (a.item == b.item && a.kid < b.kid)
  }

  predicate Uses(pairs: Pairs, answer: seq<Item>, u: Use, c: Item) {
    u.item < |answer| && u.kid < |ChildrenOf(pairs, answer[u.item])| && ChildrenOf(pairs, answer[u.item])[u.kid] == c
  }

  /** Uses come in the order in which the answer lists its items and the items list their children. After its first
      items, the answer lists each item because of one use before `here`, in the order of these uses, and that use was
      the last one before `here` of a pair into the item. */
  ghost predicate QueuedBy(pairs: Pairs, answer: seq<Item>, first: nat, cause: seq<Use>, here: Use) {
    && first + |cause| == |answer|
    && (forall m :: 0 <= m < |cause| ==> cause[m].item < first + m && Uses(pairs, answer, cause[m], answer[first + m]))
    && (forall m, n :: 0 <= m < n < |cause| ==> Before(cause[m], cause[n]))
    && (forall m, u :: 0 <= m < |cause| && Uses(pairs, answer, u, answer[first + m]) && Before(cause[m], u) ==>
      !Before(u, here))
    && (forall m :: 0 <= m < |cause| ==> Before(cause[m], here))
  }

  /** topsort's answer starts with the parentless items, and lists each other item in the order in which the last
      pair into it is used. */
  ghost predicate InQueueOrder(g: Graph, answer: seq<Item>) {
    exists first, cause ::
      && QueuedBy(g.pairs, answer, first, cause, Use(|answer|, 0))
      && forall j, p :: 0 <= j < first ==> (p, answer[j]) !in g.pairs
  }

  lemma QueueOrderFound(g: Graph, answer: seq<Item>, first: nat, cause: seq<Use>)
    requires QueuedBy(g.pairs, answer, first, cause, Use(|answer|, 0))
    requires forall j, p :: 0 <= j < first <= |answer| ==> (p, answer[j]) !in g.pairs
    ensures InQueueOrder(g, answer)
  {
  }

  lemma ZerosAreParentless(g: Graph, zeros: seq<Item>, numParents: map<Item, int>, children: map<Item, seq<Item>>)
    requires Describes(g, {}, numParents, children)
    requires forall x :: x in zeros <==> x in numParents && numParents[x] == 0
    ensures forall j, p :: 0 <= j < |zeros| ==> (p, zeros[j]) !in g.pairs
  {
    forall j, p | 0 <= j < |zeros| ensures (p, zeros[j]) !in g.pairs {
      assert zeros[j] in zeros;
      CountZero(g.pairs, zeros[j], {});
    }
  }

  lemma ChildrenDescribed(g: Graph, removed: set<Item>, numParents: map<Item, int>, children: map<Item, seq<Item>>,
                          p: Item)
    requires Describes(g, removed, numParents, children) && p in numParents
    ensures Lookup(children, p) == ChildrenOf(g.pairs, p)
  {
  }

  /** A child about to lose a parent is not in the queue yet. */
  lemma NotYetQueued(g: Graph, answer: seq<Item>, lev: seq<nat>, removed: set<Item>, i: nat,
                     kids: seq<Item>, k: nat, numParents: map<Item, int>)
    requires k < |kids| && Scanning(g, answer, lev, removed, i, kids, k, numParents)
    ensures kids[k] !in answer
  {
    hide Count, Leveled, ParentsFirst, Closed, NoDuplicates;
    KnockDown(g, removed, answer[i], kids, k, numParents);
  }

  lemma UseNext(pairs: Pairs, answer: seq<Item>, first: nat, cause: seq<Use>, here: Use)
    requires QueuedBy(pairs, answer, first, cause, here) && here.item < |answer|
    requires here.kid < |ChildrenOf(pairs, answer[here.item])|
    requires ChildrenOf(pairs, answer[here.item])[here.kid] !in answer
    ensures QueuedBy(pairs, answer, first, cause, Use(here.item, here.kid + 1))
  {
    hide ChildrenOf;
    var next := Use(here.item, here.kid + 1);
    forall m, u | 0 <= m < |cause| && Uses(pairs, answer, u, answer[first + m]) && Before(cause[m], u)
      ensures !Before(u, next)
    {
      assert Before(u, next) ==> Before(u, here) || u == here;
      assert answer[first + m] in answer;
    }
  }

  lemma UseQueues(pairs: Pairs, answer: seq<Item>, first: nat, cause: seq<Use>, here: Use)
    requires QueuedBy(pairs, answer, first, cause, here) && here.item < |answer|
    requires here.kid < |ChildrenOf(pairs, answer[here.item])|
    requires ChildrenOf(pairs, answer[here.item])[here.kid] !in answer
    ensures QueuedBy(pairs, answer + [ChildrenOf(pairs, answer[here.item])[here.kid]], first, cause + [here],
      Use(here.item, here.kid + 1))
  {
    hide ChildrenOf;
    var c, next := ChildrenOf(pairs, answer[here.item])[here.kid], Use(here.item, here.kid + 1);
    var longer, more := answer + [c], cause + [here];
    UseNext(pairs, answer, first, cause, here);
    forall u, x | Before(u, next) ensures Uses(pairs, longer, u, x) == Uses(pairs, answer, u, x) {
      assert u.item < |answer| && longer[u.item] == answer[u.item];
    }
    forall m | 0 <= m < |more| ensures more[m].item < first + m && Uses(pairs, longer, more[m], longer[first + m]) {
      assert Before(more[m], next);
    }
    forall m, u | 0 <= m < |more| && Uses(pairs, longer, u, longer[first + m]) && Before(more[m], u)
      ensures !Before(u, next)
    {
      var x := longer[first + m];
      assert m < |cause| ==> x == answer[first + m];
      assert m < |cause| && Before(u, next) ==> Uses(pairs, answer, u, x);
    }
  }

  lemma UsesDone(pairs: Pairs, answer: seq<Item>, first: nat, cause: seq<Use>, i: nat)
    requires i < |answer| && QueuedBy(pairs, answer, first, cause, Use(i, |ChildrenOf(pairs, answer[i])|))
    ensures QueuedBy(pairs, answer, first, cause, Use(i + 1, 0))
  {
    hide ChildrenOf;
    var here, next := Use(i, |ChildrenOf(pairs, answer[i])|), Use(i + 1, 0);
    forall m, u | 0 <= m < |cause| && Uses(pairs, answer, u, answer[first + m]) && Before(cause[m], u)
      ensures !Before(u, next)
    {
      assert Before(u, next) ==> Before(u, here);
    }
    forall m | 0 <= m < |cause| ensures Before(cause[m], next) {
      assert Before(cause[m], here);
    }
  }

  lemma NothingUsed(pairs: Pairs, answer: seq<Item>)
    ensures QueuedBy(pairs, answer, |answer|, [], Use(0, 0))
  {
  }

  /** An item that comes next in s, and at some place in t, has the same cause in both, if they agree so far. */
  lemma SameCause(pairs: Pairs, s: seq<Item>, t: seq<Item>, first: nat, inS: seq<Use>, inT: seq<Use>, n: nat, k: nat)
    requires NoDuplicates(s) && NoDuplicates(t) && Elements(s) == Elements(t)
    requires QueuedBy(pairs, s, first, inS, Use(|s|, 0)) && QueuedBy(pairs, t, first, inT, Use(|t|, 0))
    requires first <= n < |s| && n <= k < |t| && s[..n] == t[..n] && s[n] == t[k]
    ensures inS[n - first] == inT[k - first]
  {
    hide ChildrenOf;
    var x, u, v := s[n], inS[n - first], inT[k - first];
    assert s[first + (n - first)] == x && t[first + (k - first)] == x;
    assert Uses(pairs, s, u, x) && Uses(pairs, t, v, x);
    assert s[u.item] == s[..n][u.item] && t[u.item] == t[..n][u.item];
    assert Uses(pairs, t, u, x) && Before(u, Use(|t|, 0)) && !Before(v, u);
    var z := t[v.item];
    assert z in Elements(t) && z in Elements(s);
    var i :| 0 <= i < |s| && s[i] == z;
    assert Uses(pairs, s, Use(i, v.kid), x) && Before(Use(i, v.kid), Use(|s|, 0));
    assert i < n && s[i] == s[..n][i] && t[i] == t[..n][i];
    assert i == v.item;
  }

  lemma SameNext(pairs: Pairs, s: seq<Item>, t: seq<Item>, first: nat, inS: seq<Use>, inT: seq<Use>, n: nat)
    requires NoDuplicates(s) && NoDuplicates(t) && Elements(s) == Elements(t)
    requires QueuedBy(pairs, s, first, inS, Use(|s|, 0)) && QueuedBy(pairs, t, first, inT, Use(|t|, 0))
    requires first <= n < |s| && n < |t| && s[..n] == t[..n]
    ensures s[n] == t[n]
  {
    var k := LaterPlace(s, t, n);
    var j := LaterPlace(t, s, n);
    SameCause(pairs, s, t, first, inS, inT, n, k);
    SameCause(pairs, t, s, first, inT, inS, n, j);
    CausesInOrder(pairs, t, first, inT, n - first, k - first);
    CausesInOrder(pairs, s, first, inS, n - first, j - first);
    hide QueuedBy, Uses, ChildrenOf;
  }

  lemma CausesInOrder(pairs: Pairs, s: seq<Item>, first: nat, cause: seq<Use>, m: nat, n: nat)
    requires QueuedBy(pairs, s, first, cause, Use(|s|, 0)) && m <= n && first + n < |s|
    ensures n < |cause| && (m == n || Before(cause[m], cause[n]))
  {
  }

  lemma LaterPlace(s: seq<Item>, t: seq<Item>, n: nat) returns (k: nat)
    requires NoDuplicates(s) && Elements(s) == Elements(t) && n < |s| && n < |t| && s[..n] == t[..n]
    ensures n <= k < |t| && t[k] == s[n]
  {
    assert s[n] in Elements(s) && s[n] in Elements(t);
    assert forall i :: 0 <= i < n ==> s[..n][i] == s[i] && t[..n][i] == t[i];
    k :| 0 <= k < |t| && t[k] == s[n];
  }

  /** Given how it lists the parentless items, there is only one answer in queue order. */
  lemma QueueOrderDetermines(pairs: Pairs, s: seq<Item>, t: seq<Item>, first: nat,
                             inS: seq<Use>, inT: seq<Use>)
    requires NoDuplicates(s) && NoDuplicates(t) && Elements(s) == Elements(t)
    requires QueuedBy(pairs, s, first, inS, Use(|s|, 0)) && QueuedBy(pairs, t, first, inT, Use(|t|, 0))
    requires first <= |s| && first <= |t| && s[..first] == t[..first]
    ensures s == t
  {
    hide QueuedBy;
    SizeOfElements(s);
    SizeOfElements(t);
    for n := first to |s|
      invariant s[..n] == t[..n]
    {
      SameNext(pairs, s, t, first, inS, inT, n);
      TakeOneMore(s, n);
      TakeOneMore(t, n);
    }
    assert s == s[..|s|] && t == t[..|s|];
  }

  /** The inner loop of topsort: the children of item i lose a parent, and those that have none left
      join the queue. */
  method KnockDownKids(queue: seq<Item>, i: nat, kids: seq<Item>, counts: map<Item, int>,
                       ghost g: Graph, ghost levels: seq<nat>, ghost removed: set<Item>,
                       ghost first: nat, ghost uses: seq<Use>)
    returns (answer: seq<Item>, numParents: map<Item, int>, ghost lev: seq<nat>, ghost cause: seq<Use>)
    requires g.Valid() && i < |queue| && Scanning(g, queue, levels, removed, i, kids, 0, counts)
    requires kids == ChildrenOf(g.pairs, queue[i]) && QueuedBy(g.pairs, queue, first, uses, Use(i, 0))
    ensures queue <= answer && numParents.Keys == counts.Keys
    ensures Scanning(g, answer, lev, removed, i, kids, |kids|, numParents)
    ensures QueuedBy(g.pairs, answer, first, cause, Use(i, |kids|))
  {
    hide Scanning, QueuedBy, ChildrenOf;
    answer, numParents, lev, cause := queue, counts, levels, uses;
    for j := 0 to |kids|
      invariant i < |answer| && queue <= answer && numParents.Keys == counts.Keys
      invariant Scanning(g, answer, lev, removed, i, kids, j, numParents)
      invariant QueuedBy(g.pairs, answer, first, cause, Use(i, j))
    {
      var child := kids[j];
      NotYetQueued(g, answer, lev, removed, i, kids, j, numParents);
      UseNext(g.pairs, answer, first, cause, Use(i, j));
      UseQueues(g.pairs, answer, first, cause, Use(i, j));
      ghost var answer', lev' := ScanStep(g, answer, lev, removed, i, kids, j, numParents);
      numParents := numParents[child := numParents[child] - 1];
      if numParents[child] == 0 {
        answer := answer + [child];
        cause := cause + [Use(i, j)];
      }
      lev := lev';
    }
  }

  method Topsort(pairlist: Pairs) returns (r: TopsortResult)
    ensures r.Sorted? <==> !Cyclic(FromPairs(pairlist).Edges())
    ensures IsDependencyOrder(FromPairs(pairlist), r.answer)
    ensures InQueueOrder(FromPairs(pairlist), r.answer)
    ensures r.CycleError? ==> LeftoverTables(FromPairs(pairlist), r.numParents, r.children)
  {
    hide Describes, LeftoverTables, Scanning, SortState, IsDependencyOrder, Cyclic, FromPairs, QueuedBy, InQueueOrder;
    ghost var g := FromPairs(pairlist);
    PairsAreValid(pairlist);
    var numParents, children := BuildTables(pairlist);
    var answer := ZeroKeys(numParents);
    ghost var lev: seq<nat>, removed: set<Item> := seq(|answer|, _ => 0), {};
    ghost var first, cause: seq<Use>, zeros := |answer|, [], answer;
    SortStart(g, answer, lev, numParents, children);
    NothingUsed(g.pairs, answer);
    ZerosAreParentless(g, zeros, numParents, children);
    var i := 0;
    while i < |answer|
      invariant 0 <= i <= |answer|
      invariant SortState(g, answer, lev, removed, i, numParents)
      invariant zeros <= answer && QueuedBy(g.pairs, answer, first, cause, Use(i, 0))
      invariant Describes(g, removed, numParents, children)
      decreases numParents.Keys
    {
      var parent := answer[i];
      ghost var before, listed := numParents, children;
      ScanEnter(g, answer, lev, removed, i, numParents, children);
      assert parent in numParents;  // the `del` finds its key
      numParents := numParents - {parent};
      if parent in children {
        ChildrenDescribed(g, removed, before, children, parent);
        answer, numParents, lev, cause :=
          KnockDownKids(answer, i, children[parent], numParents, g, lev, removed, first, cause);
        children := children - {parent};
      }
      ScanLeave(g, answer, lev, removed, i, Lookup(listed, parent), before, numParents, listed);
      ChildrenDescribed(g, removed, before, listed, parent);
      UsesDone(g.pairs, answer, first, cause, i);
      removed := removed + {parent};
      i := i + 1;
    }
    SortEnd(g, answer, lev, removed, i, numParents, children);
    QueueOrderFound(g, answer, first, cause);
    if numParents != map[] {
      return CycleError(answer, numParents, children);
    }
    return Sorted(answer);
  }

  // ---------- topsort_levels

  /** The lists a generator has yielded, and how it ended. */
  datatype LevelsResult =
    | Stopped(levels: seq<seq<Item>>)
    | LevelsCycleError(levels: seq<seq<Item>>, numParents: map<Item, int>, children: map<Item, seq<Item>>)

  /** Each yielded list holds one whole level, once, and no level is missing. */
  ghost predicate AreTheLevels(g: Graph, levels: seq<seq<Item>>) {
    && (forall k :: 0 <= k < |levels| ==>
      levels[k] != [] && NoDuplicates(levels[k]) && Elements(levels[k]) == Level(g, k))
    && Peeled(g, |levels|) == g.nodes - g.Leftover()
  }

  /** Part of the way through one level: item j of it is the next to go. */
  ghost predicate Clearing(g: Graph, level: seq<Item>, k: nat, j: nat, removed: set<Item>, numParents: map<Item, int>) {
    && NoDuplicates(level) && Elements(level) == Level(g, k)
    && Peeled(g, k) <= removed <= Peeled(g, k + 1)
    && Closed(g, removed)
    && (forall m :: 0 <= m < |level| ==> (level[m] in removed <==> m < j))
    && (forall m :: j <= m < |level| ==> level[m] in numParents)
  }

  lemma ZerosAreTheLevel(g: Graph, k: nat, level: seq<Item>, numParents: map<Item, int>, children: map<Item, seq<Item>>)
    requires g.Valid() && Describes(g, Peeled(g, k), numParents, children) && NoDuplicates(level)
    requires forall x :: x in level <==> x in numParents && numParents[x] == 0
    ensures Clearing(g, level, k, 0, Peeled(g, k), numParents)
  {
    PeeledGrows(g, k, k + 1);
    forall p, x | (p, x) in g.pairs && x in Peeled(g, k) ensures p in Peeled(g, k) {
      PeeledGrows(g, k - 1, k);
    }
    forall x ensures x in Elements(level) <==> x in Level(g, k) {
      CountZero(g.pairs, x, Peeled(g, k));
    }
    forall m | 0 <= m < |level| ensures level[m] in Level(g, k) && level[m] in numParents {
      assert level[m] in level && level[m] in Elements(level);
    }
  }

  lemma ClearEnter(g: Graph, level: seq<Item>, k: nat, j: nat, removed: set<Item>,
                   numParents: map<Item, int>, children: map<Item, seq<Item>>)
    requires g.Valid() && j < |level| && Clearing(g, level, k, j, removed, numParents)
    requires Describes(g, removed, numParents, children)
    ensures level[j] in numParents
    ensures Removing(g, removed, level[j], Lookup(children, level[j]), 0, numParents - {level[j]})
  {
    assert level[j] in Elements(level);
    CountZero(g.pairs, level[j], removed);
    StartRemoving(g, removed, level[j], numParents, children);
  }

  lemma ClearLeave(g: Graph, level: seq<Item>, k: nat, j: nat, removed: set<Item>, kids: seq<Item>,
                   before: map<Item, int>, numParents: map<Item, int>, children: map<Item, seq<Item>>)
    requires j < |level| && Clearing(g, level, k, j, removed, before)
    requires Describes(g, removed, before, children)
    requires Removing(g, removed, level[j], kids, |kids|, numParents)
    ensures Clearing(g, level, k, j + 1, removed + {level[j]}, numParents)
    ensures Describes(g, removed + {level[j]}, numParents, children - {level[j]})
    ensures level[j] !in children ==> children - {level[j]} == children
    ensures numParents.Keys == before.Keys - {level[j]}
  {
    hide Count;
    assert level[j] in Elements(level);
    PeeledGrows(g, k, k + 1);
    FinishRemoving(g, removed, level[j], kids, before, numParents, children);
  }

  lemma LevelDone(g: Graph, level: seq<Item>, k: nat, removed: set<Item>, numParents: map<Item, int>)
    requires Clearing(g, level, k, |level|, removed, numParents)
    ensures removed == Peeled(g, k + 1)
  {
    forall x | x in Peeled(g, k + 1) ensures x in removed {
      if x !in Peeled(g, k) {
        assert x in Elements(level);
      }
    }
  }

  /** The generator behind topsort_levels. `g` is the graph the two dictionaries describe; their
      children lists may be empty or absent for a childless item. */
  method TopsortLevelsCore(initialParents: map<Item, int>, initialChildren: map<Item, seq<Item>>, ghost g: Graph)
    returns (r: LevelsResult)
    requires g.Valid() && Describes(g, {}, initialParents, initialChildren)
    ensures AreTheLevels(g, r.levels)
    ensures r.Stopped? <==> !Cyclic(g.Edges())
    ensures r.LevelsCycleError? ==> LeftoverTables(g, r.numParents, r.children)
  {
    hide Count, ChildrenOf, Peeled, Level, LeftoverTables, Clearing, Closed, Describes, Removing, NoDuplicates,
      Elements, BelowCycle;
    var numParents, children := initialParents, initialChildren;
    var levels: seq<seq<Item>> := [];
    PeeledStart(g);
    while true
      invariant Describes(g, Peeled(g, |levels|), numParents, children)
      invariant forall k :: 0 <= k < |levels| ==>
        levels[k] != [] && NoDuplicates(levels[k]) && Elements(levels[k]) == Level(g, k)
      decreases numParents.Keys
    {
      var levelParents := ZeroKeys(numParents);
      if levelParents == [] {
        break;
      }
      ghost var k, removed, start := |levels|, Peeled(g, |levels|), numParents.Keys;
      ZerosAreTheLevel(g, k, levelParents, numParents, children);
      assert levelParents[0] in levelParents;
      levels := levels + [levelParents];
      for j := 0 to |levelParents|
        invariant Clearing(g, levelParents, k, j, removed, numParents)
        invariant Describes(g, removed, numParents, children)
        invariant numParents.Keys <= start && (j > 0 ==> levelParents[0] !in numParents)
      {
        var levelParent := levelParents[j];
        ghost var before, listed := numParents, children;
        ClearEnter(g, levelParents, k, j, removed, numParents, children);
        assert levelParent in numParents;  // the `del` finds its key
        numParents := numParents - {levelParent};
        if levelParent in children {
          var kids := children[levelParent];
          for m := 0 to |kids|
            invariant Removing(g, removed, levelParent, kids, m, numParents)
          {
            KnockDown(g, removed, levelParent, kids, m, numParents);
            numParents := numParents[kids[m] := numParents[kids[m]] - 1];
          }
          children := children - {levelParent};
        }
        ClearLeave(g, levelParents, k, j, removed, Lookup(listed, levelParent), before, numParents, listed);
        removed := removed + {levelParent};
      }
      LevelDone(g, levelParents, k, removed, numParents);
    }
    PeelingLeavesCycles(g);
    NoParentlessLeft(g, Peeled(g, |levels|), numParents, children);
    LeftoverIsCycleError(g, Peeled(g, |levels|), numParents, children);
    if numParents != map[] {
      return LevelsCycleError(levels, numParents, children);
    }
    return Stopped(levels);
  }

  method TopsortLevels(pairlist: Pairs) returns (r: LevelsResult)
    ensures AreTheLevels(FromPairs(pairlist), r.levels)
    ensures r.Stopped? <==> !Cyclic(FromPairs(pairlist).Edges())
    ensures r.LevelsCycleError? ==> LeftoverTables(FromPairs(pairlist), r.numParents, r.children)
  {
    var numParents, children := BuildTables(pairlist);
    r := TopsortLevelsCore(numParents, children, FromPairs(pairlist));
  }

  /** The two sorts agree: cut at the sizes of the first levels, topsort's answer is, block by block, the
      lists topsort_levels yields, and the blocks use up the answer. */
  lemma BlocksAreLevels(g: Graph, answer: seq<Item>, levels: seq<seq<Item>>, k: nat)
    requires g.Valid() && IsDependencyOrder(g, answer) && AreTheLevels(g, levels) && k < |levels|
    ensures |Peeled(g, k)| + |levels[k]| == |Peeled(g, k + 1)| <= |answer|
    ensures Elements(answer[|Peeled(g, k)|..|Peeled(g, k + 1)|]) == Elements(levels[k])
    ensures |Peeled(g, |levels|)| == |answer|
  {
    hide Peeled, ParentsFirst, NoDuplicates;
    var a, b := |Peeled(g, k)|, |Peeled(g, k + 1)|;
    PeeledGrows(g, k, k + 1);
    SizeOfElements(levels[k]);
    SizeOfElements(answer);
    SizeOfDifference(Peeled(g, k), Peeled(g, k + 1));
    BlockElements(answer, a, b);
  }
}
