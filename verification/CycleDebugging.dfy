/** How the sorts and the cycle finder of bindings/python/topsort.py fit together: a CycleError hands
    its `children` argument to find_cycles, and nothing about the cycles has been lost on the way. */
module CycleDebugging {
  import opened Collections
  import opened Digraph
  import T = Topsort
  import F = FindCycles

  lemma LeftoverEdges(g: T.Graph, numParents: map<Item, int>, children: map<Item, seq<Item>>, p: Item, c: Item)
    requires g.Valid() && T.LeftoverTables(g, numParents, children)
    ensures (p, c) in F.EdgesOf(children) <==> (p, c) in g.Edges() && p in g.Leftover()
  {
    if p in g.Leftover() {
      assert Lookup(children, p) == T.ChildrenOf(g.pairs, p);
      T.ChildrenAreEdges(g.pairs, p, c);
    }
  }

  lemma CycleIsLeftover(g: T.Graph, c: seq<Item>)
    requires g.Valid() && IsElementaryCycle(g.Edges(), c)
    ensures forall i :: 0 <= i < |c| ==> c[i] in g.Leftover()
  {
    var e, w := g.Edges(), c + [c[0]];
    forall i | 0 <= i < |w| - 1 ensures (w[i], w[i + 1]) in e {
      if i < |c| - 1 { assert (c[i], c[i + 1]) in e; }
    }
    assert IsClosedWalk(e, w);
    forall i | 0 <= i < |c| ensures c[i] in g.Leftover() {
      SubWalk(e, c, 0, i + 1);
      assert IsWalkFromTo(e, c[..i + 1], w[0], c[i]);
      assert (w[i], w[i + 1]) in e;
    }
  }

  /** The dictionary in a CycleError has exactly the cycles of the whole input, and at least one. */
  lemma CycleErrorKeepsCycles(g: T.Graph, numParents: map<Item, int>, children: map<Item, seq<Item>>)
    requires g.Valid() && T.LeftoverTables(g, numParents, children)
    ensures forall c :: IsElementaryCycle(F.EdgesOf(children), c) <==> IsElementaryCycle(g.Edges(), c)
    ensures exists c :: IsElementaryCycle(F.EdgesOf(children), c)
  {
    forall p, c ensures (p, c) in F.EdgesOf(children) <==> (p, c) in g.Edges() && p in g.Leftover() {
      LeftoverEdges(g, numParents, children, p, c);
    }
    forall c ensures IsElementaryCycle(F.EdgesOf(children), c) <==> IsElementaryCycle(g.Edges(), c) {
      SameCycle(g, F.EdgesOf(children), c);
    }
    T.LeftoverIffCyclic(g);
    CyclicIffElementaryCycle(g.Edges());
  }

  lemma SameCycle(g: T.Graph, e: Edges, c: seq<Item>)
    requires g.Valid()
    requires forall p, c :: (p, c) in e <==> (p, c) in g.Edges() && p in g.Leftover()
    ensures IsElementaryCycle(e, c) <==> IsElementaryCycle(g.Edges(), c)
  {
    hide BelowCycle;
    if IsElementaryCycle(g.Edges(), c) {
      CycleIsLeftover(g, c);
      forall i | 0 <= i < |c| - 1 ensures (c[i], c[i + 1]) in e {
        assert (c[i], c[i + 1]) in g.Edges();
      }
    }
  }
}
