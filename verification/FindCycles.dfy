/** bindings/python/topsort.py, find_cycles: every elementary cycle of a dependency dictionary,
    found by growing simple paths on a stack.

    The order in which the dictionary lists its keys is arbitrary. The consumer of the generator is
    taken not to change the lists it is handed. */
module FindCycles {
  import opened Collections
  import opened Digraph
  import opened RadUtil

  type Children = map<Item, seq<Item>>

  ghost function EdgesOf(pc: Children): Edges {
    set p, c | p in pc && c in pc[p] :: (p, c)
  }

  ghost function Nodes(pc: Children): set<Item> {
    pc.Keys + set p, c | p in pc && c in pc[p] :: c
  }

  ghost predicate IsSimplePath(e: Edges, root: Item, p: seq<Item>) {
    IsWalk(e, p) && p[0] == root && NoDuplicates(p)
  }

  ghost predicate Found(cycles: seq<seq<Item>>, c: seq<Item>) {
    exists k :: 0 <= k < |cycles| && IsRotation(cycles[k], c)
  }

  function IndexOf(s: seq<Item>, x: Item): (i: nat)
    requires x in s
    ensures i < |s| && s[i] == x && x !in s[..i]
  {
    if s[0] == x then 0 else 1 + IndexOf(s[1..], x)
  }

  /** Every cycle that path p closes with one more step has been found. */
  ghost predicate Covered(e: Edges, cycles: seq<seq<Item>>, p: seq<Item>)
    requires p != []
  {
    forall c :: (p[|p| - 1], c) in e && c in p ==> Found(cycles, p[IndexOf(p, c)..])
  }

  ghost predicate OnStack(paths: seq<seq<Item>>, p: seq<Item>) {
    exists k :: 0 <= k < |paths| && paths[k] <= p
  }

  /** Every simple path from root is covered, or some path on the stack will grow into it. */
  ghost predicate Pending(e: Edges, root: Item, cycles: seq<seq<Item>>, paths: seq<seq<Item>>) {
    forall p :: IsSimplePath(e, root, p) ==> Covered(e, cycles, p) || OnStack(paths, p)
  }

  /** The same, while the children of `path` from position j on are still to be looked at. */
  ghost predicate Growing(e: Edges, root: Item, cycles: seq<seq<Item>>, paths: seq<seq<Item>>,
                          path: seq<Item>, children: seq<Item>, j: nat) {
    && j <= |children|
    && IsSimplePath(e, root, path)
    && (forall c :: c in children <==> (path[|path| - 1], c) in e)
    && (forall p :: IsSimplePath(e, root, p) ==>
          || Covered(e, cycles, p)
          || OnStack(paths, p)
          || (path <= p && (p == path || p[|path|] in children[j..])))
    && (forall i :: 0 <= i < j && children[i] in path ==> Found(cycles, path[IndexOf(path, children[i])..]))
  }

  /** The lists yielded so far: elementary cycles, none a rotation of another. */
  ghost predicate DistinctCycles(e: Edges, cycles: seq<seq<Item>>) {
    && (forall k :: 0 <= k < |cycles| ==> IsElementaryCycle(e, cycles[k]))
    && (forall i, j :: 0 <= i < j < |cycles| ==> !IsRotation(cycles[i], cycles[j]))
  }

  /** Some root's simple paths, all of them covered, lead to x. */
  ghost predicate Explored(e: Edges, cycles: seq<seq<Item>>, root: Item) {
    forall p :: IsSimplePath(e, root, p) ==> Covered(e, cycles, p)
  }

  ghost predicate ReachedFrom(e: Edges, root: Item, x: Item) {
    exists p :: IsSimplePath(e, root, p) && p[|p| - 1] == x
  }

  // ---------- termination: how many paths are still to be popped

  ghost predicate Fits(pc: Children, path: seq<Item>) {
    path != [] && NoDuplicates(path) && forall i :: 0 <= i < |path| ==> path[i] in Nodes(pc)
  }

  lemma FitsBound(pc: Children, path: seq<Item>)
    requires Fits(pc, path)
    ensures |path| <= |Nodes(pc)|
  {
    DistinctFit(path, Nodes(pc));
  }

  lemma FitsGrow(pc: Children, path: seq<Item>, c: Item)
    requires Fits(pc, path) && c in Lookup(pc, path[|path| - 1]) && c !in path
    ensures Fits(pc, path + [c]) && |path| < |Nodes(pc)|
  {
    FitsBound(pc, path + [c]);
  }

  /** The number of paths that get popped because of `path`, itself included. */
  ghost function TreeSize(pc: Children, path: seq<Item>): nat
    requires Fits(pc, path)
    decreases |Nodes(pc)| - |path|, 1, 0
  {
    FitsBound(pc, path);
    1 + ForestSize(pc, path, 0)
  }

  ghost function ForestSize(pc: Children, path: seq<Item>, j: nat): nat
    requires Fits(pc, path) && j <= |Lookup(pc, path[|path| - 1])|
    decreases |Nodes(pc)| - |path|, 0, |Lookup(pc, path[|path| - 1])| - j
  {
    var children := Lookup(pc, path[|path| - 1]);
    if j == |children| then 0
    else if children[j] in path then ForestSize(pc, path, j + 1)
    else
      FitsGrow(pc, path, children[j]);
      TreeSize(pc, path + [children[j]]) + ForestSize(pc, path, j + 1)
  }

  ghost predicate AllFit(pc: Children, paths: seq<seq<Item>>) {
    forall k :: 0 <= k < |paths| ==> Fits(pc, paths[k])
  }

  ghost function StackSize(pc: Children, paths: seq<seq<Item>>): nat
    requires AllFit(pc, paths)
  {
    if paths == [] then 0
    else StackSize(pc, paths[..|paths| - 1]) + TreeSize(pc, paths[|paths| - 1])
  }

  lemma StackPush(pc: Children, paths: seq<seq<Item>>, path: seq<Item>)
    requires AllFit(pc, paths) && Fits(pc, path)
    ensures AllFit(pc, paths + [path])
    ensures StackSize(pc, paths + [path]) == StackSize(pc, paths) + TreeSize(pc, path)
  {
    assert (paths + [path])[..|paths|] == paths;
  }

  // ---------- the steps of the search

  lemma RootFits(pc: Children, root: Item)
    requires root in pc
    ensures IsSimplePath(EdgesOf(pc), root, [root]) && Fits(pc, [root])
  {
  }

  lemma StartSearch(pc: Children, root: Item, cycles: seq<seq<Item>>)
    ensures Pending(EdgesOf(pc), root, cycles, [[root]])
  {
    forall p | IsSimplePath(EdgesOf(pc), root, p) ensures OnStack([[root]], p) {
      assert [[root]][0] <= p;
    }
  }

  lemma StaysOnStack(paths: seq<seq<Item>>, p: seq<Item>, k: nat)
    requires k < |paths| - 1 && paths[k] <= p
    ensures OnStack(paths[..|paths| - 1], p)
  {
    assert paths[..|paths| - 1][k] == paths[k];
  }

  lemma PopPath(pc: Children, root: Item, cycles: seq<seq<Item>>, paths: seq<seq<Item>>)
    requires paths != [] && Pending(EdgesOf(pc), root, cycles, paths)
    requires IsSimplePath(EdgesOf(pc), root, paths[|paths| - 1])
    ensures var path := paths[|paths| - 1];
      Growing(EdgesOf(pc), root, cycles, paths[..|paths| - 1], path, Lookup(pc, path[|path| - 1]), 0)
  {
    var e, path, rest := EdgesOf(pc), paths[|paths| - 1], paths[..|paths| - 1];
    var children := Lookup(pc, path[|path| - 1]);
    forall p | IsSimplePath(e, root, p) && !Covered(e, cycles, p) && !OnStack(rest, p)
      ensures path <= p && (p == path || p[|path|] in children[0..])
    {
      var k :| 0 <= k < |paths| && paths[k] <= p;
      if k < |rest| { StaysOnStack(paths, p, k); }
      assert path <= p;
      if p != path {
        assert p[|path| - 1] == path[|path| - 1];
        assert (p[|path| - 1], p[|path| - 1 + 1]) in e;
        assert children[0..] == children;
      }
    }
  }

  lemma FoundMonotone(cycles: seq<seq<Item>>, cycle: seq<Item>, c: seq<Item>)
    requires Found(cycles, c)
    ensures Found(cycles + [cycle], c)
  {
    var k :| 0 <= k < |cycles| && IsRotation(cycles[k], c);
    assert (cycles + [cycle])[k] == cycles[k];
  }

  lemma CoveredMonotone(e: Edges, cycles: seq<seq<Item>>, cycle: seq<Item>, p: seq<Item>)
    requires p != [] && Covered(e, cycles, p)
    ensures Covered(e, cycles + [cycle], p)
  {
    forall c | (p[|p| - 1], c) in e && c in p ensures Found(cycles + [cycle], p[IndexOf(p, c)..]) {
      FoundMonotone(cycles, cycle, p[IndexOf(p, c)..]);
    }
  }

  /** Cutting a simple path at the item its last step returns to leaves an elementary cycle. */
  lemma ClosingCycle(e: Edges, root: Item, path: seq<Item>, c: Item)
    requires IsSimplePath(e, root, path) && (path[|path| - 1], c) in e && c in path
    ensures IsElementaryCycle(e, path[IndexOf(path, c)..])
  {
    SubWalk(e, path, IndexOf(path, c), |path|);
  }

  lemma CycleStep(e: Edges, root: Item, cycles: seq<seq<Item>>, cycles': seq<seq<Item>>, paths: seq<seq<Item>>,
                  path: seq<Item>, children: seq<Item>, j: nat)
    requires j < |children| && Growing(e, root, cycles, paths, path, children, j) && children[j] in path
    requires var cycle := path[IndexOf(path, children[j])..];
      Found(cycles', cycle) && (cycles' == cycles || cycles' == cycles + [cycle])
    ensures Growing(e, root, cycles', paths, path, children, j + 1)
  {
    hide Covered, Found;
    var cycle := path[IndexOf(path, children[j])..];
    forall p | IsSimplePath(e, root, p)
      ensures Covered(e, cycles', p) || OnStack(paths, p) ||
        (path <= p && (p == path || p[|path|] in children[j + 1..]))
    {
      if Covered(e, cycles, p) {
        CoveredMonotone(e, cycles, cycle, p);
      } else if path < p && p[|path|] == children[j] {
        assert false;
      } else if path < p {
        assert children[j..] == [children[j]] + children[j + 1..];
      }
    }
    forall i | 0 <= i < j && children[i] in path ensures Found(cycles', path[IndexOf(path, children[i])..]) {
      FoundMonotone(cycles, cycle, path[IndexOf(path, children[i])..]);
    }
  }

  lemma PushStep(e: Edges, root: Item, cycles: seq<seq<Item>>, paths: seq<seq<Item>>,
                 path: seq<Item>, children: seq<Item>, j: nat)
    requires j < |children| && Growing(e, root, cycles, paths, path, children, j) && children[j] !in path
    ensures IsSimplePath(e, root, path + [children[j]])
    ensures Growing(e, root, cycles, paths + [path + [children[j]]], path, children, j + 1)
  {
    hide Covered, Found;
    var longer := path + [children[j]];
    var paths' := paths + [longer];
    assert children[j] in children;
    forall i | 0 <= i < |longer| - 1 ensures (longer[i], longer[i + 1]) in e {
      if i < |path| - 1 { assert (path[i], path[i + 1]) in e; }
    }
    forall p | IsSimplePath(e, root, p) && !Covered(e, cycles, p)
      ensures OnStack(paths', p) || (path <= p && (p == path || p[|path|] in children[j + 1..]))
    {
      if OnStack(paths, p) {
        var k :| 0 <= k < |paths| && paths[k] <= p;
        assert paths'[k] <= p;
      } else if path < p && p[|path|] == children[j] {
        assert longer == p[..|path| + 1];
        assert paths'[|paths|] <= p;
      } else if path < p {
        assert children[j..] == [children[j]] + children[j + 1..];
      }
    }
  }

  lemma PathDone(e: Edges, root: Item, cycles: seq<seq<Item>>, paths: seq<seq<Item>>, path: seq<Item>,
                 children: seq<Item>)
    requires Growing(e, root, cycles, paths, path, children, |children|)
    ensures Pending(e, root, cycles, paths)
  {
    forall c | (path[|path| - 1], c) in e && c in path ensures Found(cycles, path[IndexOf(path, c)..]) {
      assert c in children;
      var i :| 0 <= i < |children| && children[i] == c;
    }
    assert Covered(e, cycles, path);
  }

  // ---------- completeness

  lemma AroundFrom(e: Edges, c: seq<Item>, k: nat)
    requires IsElementaryCycle(e, c) && k < |c|
    ensures IsElementaryCycle(e, Rotate(c, k))
  {
    var r := Rotate(c, k);
    forall i | 0 <= i < |r| - 1 ensures (r[i], r[i + 1]) in e {
      if i < |c| - k - 1 {
        assert (c[k + i], c[k + i + 1]) in e;
      } else if i > |c| - k - 1 {
        assert (c[i + k - |c|], c[i + k - |c| + 1]) in e;
      }
    }
    if k > 0 {
      assert (c[k - 1], c[k - 1 + 1]) in e;
    }
  }

  /** The first item of path p that lies on cycle c. */
  lemma FirstHit(p: seq<Item>, c: seq<Item>) returns (i: nat, k: nat)
    requires p != [] && p[|p| - 1] in c
    ensures i < |p| && k < |c| && p[i] == c[k] && forall j :: 0 <= j < i ==> p[j] !in c
  {
    i := 0;
    while p[i] !in c
      invariant i < |p| && forall j :: 0 <= j < i ==> p[j] !in c
      decreases |p| - i
    {
      i := i + 1;
    }
    k :| 0 <= k < |c| && c[k] == p[i];
  }

  /** Following a path to the cycle's first hit and then once around gives a simple path. */
  lemma OnceAround(e: Edges, root: Item, p: seq<Item>, i: nat, round: seq<Item>)
    requires IsSimplePath(e, root, p) && IsElementaryCycle(e, round)
    requires i < |p| && p[i] == round[0] && forall j :: 0 <= j < i ==> p[j] !in round
    ensures IsSimplePath(e, root, p[..i] + round)
  {
    var lead, q := p[..i + 1], p[..i] + round;
    SubWalk(e, p, 0, i + 1);
    JoinWalks(e, lead, round);
    assert q == lead + round[1..];
    forall a, b | 0 <= a < b < |q| ensures q[a] != q[b] {
      if a < i <= b {
        assert q[b] == round[b - i] && round[b - i] in round;
      }
    }
  }

  lemma IndexAfterLead(lead: seq<Item>, round: seq<Item>)
    requires NoDuplicates(lead + round) && round != []
    ensures round[0] in lead + round
    ensures (lead + round)[IndexOf(lead + round, round[0])..] == round
  {
    var q := lead + round;
    assert q[|lead|] == round[0];
    assert IndexOf(q, round[0]) == |lead|;
  }

  lemma ReachedCycleIsFound(e: Edges, cycles: seq<seq<Item>>, root: Item, c: seq<Item>)
    requires IsElementaryCycle(e, c) && ReachedFrom(e, root, c[0]) && Explored(e, cycles, root)
    ensures Found(cycles, c)
  {
    hide NoDuplicates, Explored;
    var p :| IsSimplePath(e, root, p) && p[|p| - 1] == c[0];
    var i, k := FirstHit(p, c);
    var round := Rotate(c, k);
    AroundFrom(e, c, k);
    assert forall j :: 0 <= j < i ==> p[j] !in round;
    OnceAround(e, root, p, i, round);
    FoundAtEnd(e, cycles, root, p[..i], round);
    var m :| 0 <= m < |cycles| && IsRotation(cycles[m], round);
    RotationSymmetric(c, round);
    RotationTransitive(cycles[m], round, c);
  }

  lemma FoundAtEnd(e: Edges, cycles: seq<seq<Item>>, root: Item, lead: seq<Item>, round: seq<Item>)
    requires IsElementaryCycle(e, round) && IsSimplePath(e, root, lead + round) && Explored(e, cycles, root)
    ensures Found(cycles, round)
  {
    var q := lead + round;
    IndexAfterLead(lead, round);
    assert q[|q| - 1] == round[|round| - 1];
    assert Covered(e, cycles, q);
  }

  ghost predicate ReachedFromSome(e: Edges, roots: set<Item>, x: Item) {
    exists r :: r in roots && ReachedFrom(e, r, x)
  }

  lemma Complete(pc: Children, cycles: seq<seq<Item>>, roots: set<Item>)
    requires forall r :: r in roots ==> Explored(EdgesOf(pc), cycles, r)
    requires forall x :: x in pc ==> ReachedFromSome(EdgesOf(pc), roots, x)
    ensures forall c :: IsElementaryCycle(EdgesOf(pc), c) ==> Found(cycles, c)
  {
    var e := EdgesOf(pc);
    forall c | IsElementaryCycle(e, c) ensures Found(cycles, c) {
      assert c[0] in pc by {
        if |c| > 1 { assert (c[0], c[0 + 1]) in e; }
      }
      var r :| r in roots && ReachedFrom(e, r, c[0]);
      ReachedCycleIsFound(e, cycles, r, c);
    }
  }

  // ---------- the generator

  /** `is_dup`: whether `cycle` is a rotation of one already listed. */
  method IsDuplicate(cycles: seq<seq<Item>>, cycle: seq<Item>) returns (isDup: bool)
    requires cycle != []
    ensures isDup <==> Found(cycles, cycle)
  {
    for k := 0 to |cycles|
      invariant forall i :: 0 <= i < k ==> !IsRotation(cycles[i], cycle)
    {
      var rotated := IsRotated(cycles[k], cycle);
      if rotated == Some(true) {
        return true;
      }
    }
    return false;
  }

  /** What holds at every moment of the search from `root`, apart from its progress. */
  ghost predicate Searching(pc: Children, root: Item, roots: set<Item>, cycles: seq<seq<Item>>,
                            paths: seq<seq<Item>>, visitedNodes: set<Item>) {
    && DistinctCycles(EdgesOf(pc), cycles)
    && AllFit(pc, paths)
    && (forall k :: 0 <= k < |paths| ==> IsSimplePath(EdgesOf(pc), root, paths[k]))
    && (forall r :: r in roots ==> Explored(EdgesOf(pc), cycles, r))
    && (forall x :: x in visitedNodes ==> ReachedFromSome(EdgesOf(pc), roots + {root}, x))
  }

  lemma EnterSearch(pc: Children, root: Item, roots: set<Item>, cycles: seq<seq<Item>>, visitedNodes: set<Item>)
    requires root in pc && DistinctCycles(EdgesOf(pc), cycles)
    requires forall r :: r in roots ==> Explored(EdgesOf(pc), cycles, r)
    requires forall x :: x in visitedNodes ==> ReachedFromSome(EdgesOf(pc), roots, x)
    ensures Searching(pc, root, roots, cycles, [[root]], visitedNodes)
    ensures Pending(EdgesOf(pc), root, cycles, [[root]])
    ensures ReachedFromSome(EdgesOf(pc), roots + {root}, root)
  {
    RootFits(pc, root);
    StartSearch(pc, root, cycles);
    forall x | x in visitedNodes ensures ReachedFromSome(EdgesOf(pc), roots + {root}, x) {
      var r :| r in roots && ReachedFrom(EdgesOf(pc), r, x);
      assert r in roots + {root};
    }
    assert ReachedFrom(EdgesOf(pc), root, root);
    assert root in roots + {root};
  }

  lemma PopSearch(pc: Children, root: Item, roots: set<Item>, cycles: seq<seq<Item>>,
                  paths: seq<seq<Item>>, visitedNodes: set<Item>)
    requires paths != [] && Searching(pc, root, roots, cycles, paths, visitedNodes)
    requires Pending(EdgesOf(pc), root, cycles, paths)
    ensures var path, rest := paths[|paths| - 1], paths[..|paths| - 1];
      && Searching(pc, root, roots, cycles, rest, visitedNodes)
      && AllFit(pc, rest) && Fits(pc, path) && path != []
      && Growing(EdgesOf(pc), root, cycles, rest, path, Lookup(pc, path[|path| - 1]), 0)
      && StackSize(pc, paths) == StackSize(pc, rest) + 1 + ForestSize(pc, path, 0)
  {
    hide Covered, ReachedFromSome, Explored, DistinctCycles;
    PopPath(pc, root, cycles, paths);
  }

  lemma KnownCycle(pc: Children, root: Item, cycles: seq<seq<Item>>, paths: seq<seq<Item>>, path: seq<Item>, j: nat)
    requires Fits(pc, path) && j < |Lookup(pc, path[|path| - 1])|
    requires Growing(EdgesOf(pc), root, cycles, paths, path, Lookup(pc, path[|path| - 1]), j)
    requires Lookup(pc, path[|path| - 1])[j] in path
    ensures var cycle := path[IndexOf(path, Lookup(pc, path[|path| - 1])[j])..];
      && cycle != []
      && (Found(cycles, cycle) ==> Growing(EdgesOf(pc), root, cycles, paths, path, Lookup(pc, path[|path| - 1]), j + 1))
    ensures ForestSize(pc, path, j) == ForestSize(pc, path, j + 1)
  {
    var children := Lookup(pc, path[|path| - 1]);
    if Found(cycles, path[IndexOf(path, children[j])..]) {
      CycleStep(EdgesOf(pc), root, cycles, cycles, paths, path, children, j);
    }
  }

  lemma NewCycle(pc: Children, root: Item, roots: set<Item>, cycles: seq<seq<Item>>,
                 paths: seq<seq<Item>>, visitedNodes: set<Item>, path: seq<Item>, j: nat)
    requires Searching(pc, root, roots, cycles, paths, visitedNodes)
    requires Fits(pc, path) && j < |Lookup(pc, path[|path| - 1])|
    requires Growing(EdgesOf(pc), root, cycles, paths, path, Lookup(pc, path[|path| - 1]), j)
    requires Lookup(pc, path[|path| - 1])[j] in path
    requires !Found(cycles, path[IndexOf(path, Lookup(pc, path[|path| - 1])[j])..])
    ensures var cycles' := cycles + [path[IndexOf(path, Lookup(pc, path[|path| - 1])[j])..]];
      && Searching(pc, root, roots, cycles', paths, visitedNodes)
      && Growing(EdgesOf(pc), root, cycles', paths, path, Lookup(pc, path[|path| - 1]), j + 1)
  {
    hide ReachedFromSome, Covered, AllFit, DistinctCycles, Found, EdgesOf;
    var e, children := EdgesOf(pc), Lookup(pc, path[|path| - 1]);
    var cycle := path[IndexOf(path, children[j])..];
    ChildIsEdge(e, root, cycles, paths, path, children, j);
    ClosingCycle(e, root, path, children[j]);
    AppendCycle(e, cycles, cycle);
    CycleStep(e, root, cycles, cycles + [cycle], paths, path, children, j);
    forall r, p | r in roots && IsSimplePath(e, r, p) ensures Covered(e, cycles + [cycle], p) {
      CoveredMonotone(e, cycles, cycle, p);
    }
  }

  lemma ChildIsEdge(e: Edges, root: Item, cycles: seq<seq<Item>>, paths: seq<seq<Item>>,
                    path: seq<Item>, children: seq<Item>, j: nat)
    requires j < |children| && Growing(e, root, cycles, paths, path, children, j)
    ensures (path[|path| - 1], children[j]) in e
  {
    assert children[j] in children;
  }

  lemma AppendCycle(e: Edges, cycles: seq<seq<Item>>, cycle: seq<Item>)
    requires DistinctCycles(e, cycles) && IsElementaryCycle(e, cycle) && !Found(cycles, cycle)
    ensures DistinctCycles(e, cycles + [cycle]) && Found(cycles + [cycle], cycle)
  {
    hide IsElementaryCycle;
    assert (cycles + [cycle])[|cycles|] == cycle == Rotate(cycle, 0);
  }

  lemma NewPath(pc: Children, root: Item, roots: set<Item>, cycles: seq<seq<Item>>,
                paths: seq<seq<Item>>, visitedNodes: set<Item>, path: seq<Item>, j: nat)
    requires Searching(pc, root, roots, cycles, paths, visitedNodes)
    requires Fits(pc, path) && j < |Lookup(pc, path[|path| - 1])|
    requires Growing(EdgesOf(pc), root, cycles, paths, path, Lookup(pc, path[|path| - 1]), j)
    requires Lookup(pc, path[|path| - 1])[j] !in path
    ensures var child := Lookup(pc, path[|path| - 1])[j];
      && Searching(pc, root, roots, cycles, paths + [path + [child]], visitedNodes + {child})
      && AllFit(pc, paths + [path + [child]])
      && Growing(EdgesOf(pc), root, cycles, paths + [path + [child]], path, Lookup(pc, path[|path| - 1]), j + 1)
      && StackSize(pc, paths) + ForestSize(pc, path, j)
         == StackSize(pc, paths + [path + [child]]) + ForestSize(pc, path, j + 1)
  {
    hide Covered, Explored, DistinctCycles;
    var e, children := EdgesOf(pc), Lookup(pc, path[|path| - 1]);
    var longer := path + [children[j]];
    FitsGrow(pc, path, children[j]);
    PushStep(e, root, cycles, paths, path, children, j);
    StackPush(pc, paths, longer);
    assert longer[|longer| - 1] == children[j];
    assert ReachedFrom(e, root, children[j]);
    assert root in roots + {root};
  }

  lemma LeaveSearch(pc: Children, root: Item, roots: set<Item>, cycles: seq<seq<Item>>, visitedNodes: set<Item>)
    requires Searching(pc, root, roots, cycles, [], visitedNodes) && Pending(EdgesOf(pc), root, cycles, [])
    ensures DistinctCycles(EdgesOf(pc), cycles)
    ensures forall r :: r in roots + {root} ==> Explored(EdgesOf(pc), cycles, r)
    ensures forall x :: x in visitedNodes ==> ReachedFromSome(EdgesOf(pc), roots + {root}, x)
  {
  }

  lemma MoreRoots(e: Edges, roots: set<Item>, root: Item, x: Item)
    requires ReachedFromSome(e, roots, x)
    ensures ReachedFromSome(e, roots + {root}, x)
  {
    var r :| r in roots && ReachedFrom(e, r, x);
    assert r in roots + {root};
  }

  /** The list of everything the generator yields, in order. */
  method FindCycles(parentChildren: Children) returns (cycles: seq<seq<Item>>)
    ensures DistinctCycles(EdgesOf(parentChildren), cycles)
    ensures forall c :: IsElementaryCycle(EdgesOf(parentChildren), c) ==> Found(cycles, c)
  {
    hide Growing, Pending, Searching, Explored, ReachedFromSome, DistinctCycles, Found, Fits, AllFit, EdgesOf, Nodes,
      StackSize, TreeSize, ForestSize;
    ghost var e := EdgesOf(parentChildren);
    cycles := [];
    var visitedNodes: set<Item> := {};
    ghost var roots: set<Item> := {};
    NothingFound(e);
    var left := parentChildren.Keys;
    while left != {}
      invariant left <= parentChildren.Keys
      invariant DistinctCycles(e, cycles)
      invariant forall r :: r in roots ==> Explored(e, cycles, r)
      invariant forall x :: x in visitedNodes ==> ReachedFromSome(e, roots, x)
      invariant forall x :: x in parentChildren.Keys - left ==> ReachedFromSome(e, roots, x)
      decreases left
    {
      var root :| root in left;
      left := left - {root};
      if root in visitedNodes {
        continue;
      }
      EnterSearch(parentChildren, root, roots, cycles, visitedNodes);
      var paths := [[root]];
      while paths != []
        invariant Searching(parentChildren, root, roots, cycles, paths, visitedNodes) && AllFit(parentChildren, paths)
        invariant Pending(e, root, cycles, paths)
        decreases StackSize(parentChildren, paths)
      {
        ghost var size := StackSize(parentChildren, paths);
        PopSearch(parentChildren, root, roots, cycles, paths, visitedNodes);
        var path := paths[|paths| - 1];
        paths := paths[..|paths| - 1];
        var parent := path[|path| - 1];
        if parent in parentChildren {
          var children := parentChildren[parent];
          for j := 0 to |children|
            invariant Searching(parentChildren, root, roots, cycles, paths, visitedNodes)
            invariant AllFit(parentChildren, paths)
            invariant Growing(e, root, cycles, paths, path, children, j)
            invariant StackSize(parentChildren, paths) + ForestSize(parentChildren, path, j) == size - 1
          {
            var child := children[j];
            if child in path {
              KnownCycle(parentChildren, root, cycles, paths, path, j);
              var cycle := path[IndexOf(path, child)..];
              var isDup := IsDuplicate(cycles, cycle);
              if !isDup {
                NewCycle(parentChildren, root, roots, cycles, paths, visitedNodes, path, j);
                cycles := cycles + [cycle];
              }
            } else {
              NewPath(parentChildren, root, roots, cycles, paths, visitedNodes, path, j);
              paths := paths + [path + [child]];
              visitedNodes := visitedNodes + {child};
            }
          }
        }
        PathDone(e, root, cycles, paths, path, Lookup(parentChildren, parent));
      }
      LeaveSearch(parentChildren, root, roots, cycles, visitedNodes);
      forall x | x in parentChildren.Keys - left - {root} ensures ReachedFromSome(e, roots + {root}, x) {
        MoreRoots(e, roots, root, x);
      }
      roots := roots + {root};
    }
    Complete(parentChildren, cycles, roots);
  }

  lemma NothingFound(e: Edges)
    ensures DistinctCycles(e, [])
  {
  }
}
