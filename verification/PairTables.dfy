/** The per-pair numbers of scratch/common.h (pairDelay, pairTxDelay, pairBw, pairRtt, pairBdp), keyed by
    node here where some C++ maps are keyed by node id. */
module PairTables {
  import opened MachineInts
  import opened PathCosts
  import opened RouteCosts
  import opened Routes
  import opened RouteSearch

  type Pairwise = map<Node, map<Node, nat>>

  function Get(m: Pairwise, x: Node, y: Node): nat {
    if x in m && y in m[x] then m[x][y] else 0
  }

  function Put(m: Pairwise, x: Node, y: Node, v: nat): Pairwise {
    m[x := (if x in m then m[x] else map[])[y := v]]
  }

  lemma GetPut(m: Pairwise, x: Node, y: Node, v: nat)
    ensures forall a, b :: Get(Put(m, x, y, v), a, b) == if a == x && b == y then v else Get(m, a, b)
  {
  }

  /** `for (auto it : column) m[it.first][host] = it.second`. */
  method StoreColumn(m: Pairwise, host: Node, column: map<Node, nat>) returns (r: Pairwise)
    ensures forall x, y :: Get(r, x, y) == if y == host && x in column then column[x] else Get(m, x, y)
  {
    hide Get, Put;
    r := m;
    var left := column.Keys;
    while left != {}
      invariant left <= column.Keys
      invariant forall x, y :: Get(r, x, y) == if y == host && x in column.Keys - left then column[x] else Get(m, x, y)
      decreases left
    {
      var x :| x in left;
      left := left - {x};
      GetPut(r, x, host, column[x]);
      r := Put(r, x, host, column[x]);
    }
  }

  ghost predicate CostsFor(net: Net, payload: nat, done: set<Node>, delay: Pairwise, txDelay: Pairwise, bw: Pairwise)
  {
    forall h, x :: h in done && net.kind(x) == Host && Reached(net, h, x) ==>
      CostsAlong(net, payload, h, x, Get(delay, x, h), Get(txDelay, x, h), Get(bw, x, h))
  }

  /** Entries for two hosts are the same in both. */
  ghost predicate SameForHosts(net: Net, a: Pairwise, b: Pairwise) {
    forall x, y :: net.kind(x) == Host && net.kind(y) == Host ==> Get(a, x, y) == Get(b, x, y)
  }

  /** Only what the hosts of `done` reach has been written. */
  ghost predicate OnlyReached(net: Net, done: set<Node>, before: Pairwise, after: Pairwise) {
    forall x, h :: !(h in done && Reached(net, h, x)) ==> Get(after, x, h) == Get(before, x, h)
  }

  /** The same for the entries of two hosts. */
  ghost predicate OnlyReachedHosts(net: Net, done: set<Node>, before: Pairwise, after: Pairwise) {
    forall x, h :: net.kind(x) == Host && net.kind(h) == Host && !(h in done && Reached(net, h, x)) ==>
      Get(after, x, h) == Get(before, x, h)
  }

  /** The rate recorded between a host and a switch that is one of its last stops is that of their link. */
  ghost predicate LastStopRates(net: Net, hops: Hops, bw: Pairwise) {
    forall x, w :: net.kind(x) == Host && net.kind(w) != Host && At(hops, x, w) != [] ==>
      Get(bw, x, w) == Step(net.links, w, x).bw
  }

  lemma ColumnReached(net: Net, host: Node, column: map<Node, nat>, before: Pairwise, after: Pairwise)
    requires forall x :: x in column <==> Reached(net, host, x)
    requires forall x, y :: Get(after, x, y) == if y == host && x in column then column[x] else Get(before, x, y)
    ensures OnlyReached(net, {host}, before, after)
  {
    hide Get, Reached;
  }

  lemma HostColumnReached(net: Net, host: Node, column: map<Node, nat>,
                          start: Pairwise, before: Pairwise, after: Pairwise)
    requires SameForHosts(net, before, start) && (forall x :: x in column <==> Reached(net, host, x))
    requires forall x, y :: Get(after, x, y) == if y == host && x in column then column[x] else Get(before, x, y)
    ensures OnlyReachedHosts(net, {host}, start, after)
  {
    hide Get, Reached;
  }

  lemma ColumnKeepsRates(net: Net, host: Node, hops: Hops, before: Pairwise, after: Pairwise)
    requires net.kind(host) == Host && (forall x, y :: y != host ==> Get(after, x, y) == Get(before, x, y))
    requires LastStopRates(net, hops, before)
    ensures LastStopRates(net, hops, after)
  {
    hide Get, At, Step;
  }

  lemma OnlyReachedMore(net: Net, done: set<Node>, host: Node, a: Pairwise, b: Pairwise, c: Pairwise)
    requires OnlyReached(net, done, a, b) && OnlyReached(net, {host}, b, c)
    ensures OnlyReached(net, done + {host}, a, c)
  {
    hide Get, Reached;
  }

  lemma OnlyReachedHostsMore(net: Net, done: set<Node>, host: Node, a: Pairwise, b: Pairwise, c: Pairwise)
    requires OnlyReachedHosts(net, done, a, b) && OnlyReachedHosts(net, {host}, b, c)
    ensures OnlyReachedHosts(net, done + {host}, a, c)
  {
    hide Get, Reached;
  }

  lemma CostsMore(net: Net, payload: nat, done: set<Node>, host: Node,
                  delay: Pairwise, txDelay: Pairwise, bw: Pairwise, delay': Pairwise, txDelay': Pairwise, bw': Pairwise)
    requires net.kind(host) == Host && host !in done && (forall h :: h in done ==> net.kind(h) == Host)
    requires CostsFor(net, payload, done, delay, txDelay, bw) && CostsFor(net, payload, {host}, delay', txDelay', bw')
    requires OnlyReached(net, {host}, delay, delay') && OnlyReached(net, {host}, txDelay, txDelay')
    requires OnlyReachedHosts(net, {host}, bw, bw')
    ensures CostsFor(net, payload, done + {host}, delay', txDelay', bw')
  {
    hide Get, Reached, CostsAlong;
  }

  lemma LastStopRate(net: Net, host: Node, hops: Hops, before: Pairwise, after: Pairwise, now: Node, next: Node)
    requires net.kind(host) == Host && (now == host || net.kind(now) != Host)
    requires LastStopRates(net, hops, before)
    requires var written := net.kind(next) == Host && now != host && At(hops, next, now) == [];
      forall x, y :: Get(after, x, y) ==
        (if written && ((x == now && y == next) || (x == next && y == now)) then Step(net.links, now, next).bw
         else Get(before, x, y))
    ensures LastStopRates(net, AddLastStop(net, host, hops, now, next), after)
  {
    hide Get, Listed, Set, At;
    AtSet(hops, next, host, Listed(net, At(hops, next, host), now));
    var listed := Set(hops, next, host, Listed(net, At(hops, next, host), now));
    AtSet(listed, next, now, [now]);
    ListedSome(net, At(hops, next, host), now);
  }

  function Rtt(delay: Pairwise, txDelay: Pairwise, x: Node, y: Node): nat {
    (Get(delay, x, y) * 2 + Get(txDelay, x, y)) % U64
  }

  function Bdp(delay: Pairwise, txDelay: Pairwise, bw: Pairwise, x: Node, y: Node): nat {
    Rtt(delay, txDelay, x, y) * Get(bw, x, y) % U64 / 1_000_000_000 / 8
  }

  /** m is the largest entry for one of the pairs, or 0 for no pairs. */
  ghost predicate IsLargest(table: Pairwise, pairs: set<(Node, Node)>, m: nat) {
    && (forall x, y :: (x, y) in pairs ==> Get(table, x, y) <= m)
    && (m == 0 || exists x, y :: (x, y) in pairs && m == Get(table, x, y))
  }

  /** m is the largest RTT of the pairs, or 0 for no pairs. */
  ghost predicate IsMaxRtt(delay: Pairwise, txDelay: Pairwise, pairs: set<(Node, Node)>, m: nat) {
    && (forall x, y :: (x, y) in pairs ==> Rtt(delay, txDelay, x, y) <= m)
    && (m == 0 || exists x, y :: (x, y) in pairs && m == Rtt(delay, txDelay, x, y))
  }

  ghost predicate IsMaxBdp(delay: Pairwise, txDelay: Pairwise, bw: Pairwise, pairs: set<(Node, Node)>, m: nat) {
    && (forall x, y :: (x, y) in pairs ==> Bdp(delay, txDelay, bw, x, y) <= m)
    && (m == 0 || exists x, y :: (x, y) in pairs && m == Bdp(delay, txDelay, bw, x, y))
  }

  /** The values stored for the pairs in `seen`, and the maxima over them. */
  ghost predicate Derived(delay: Pairwise, txDelay: Pairwise, bw: Pairwise, seen: set<(Node, Node)>,
                          rtt: Pairwise, bdp: Pairwise, maxRtt: nat, maxBdp: nat) {
    && (forall x, y :: (x, y) in seen ==>
      Get(rtt, x, y) == Rtt(delay, txDelay, x, y) && Get(bdp, x, y) == Bdp(delay, txDelay, bw, x, y))
    && IsMaxRtt(delay, txDelay, seen, maxRtt) && IsMaxBdp(delay, txDelay, bw, seen, maxBdp)
  }

  lemma NothingDerived(delay: Pairwise, txDelay: Pairwise, bw: Pairwise, rtt: Pairwise, bdp: Pairwise)
    ensures Derived(delay, txDelay, bw, {}, rtt, bdp, 0, 0)
  {
  }

  lemma AllDerived(delay: Pairwise, txDelay: Pairwise, bw: Pairwise, seen: set<(Node, Node)>,
                   rtt: Pairwise, bdp: Pairwise, maxRtt: nat, maxBdp: nat)
    requires Derived(delay, txDelay, bw, seen, rtt, bdp, maxRtt, maxBdp)
    ensures forall x, y :: (x, y) in seen ==>
      && Get(rtt, x, y) == (Get(delay, x, y) * 2 + Get(txDelay, x, y)) % U64
      && Get(bdp, x, y) == Get(rtt, x, y) * Get(bw, x, y) % U64 / 1_000_000_000 / 8
    ensures IsLargest(rtt, seen, maxRtt) && IsLargest(bdp, seen, maxBdp)
  {
    hide Get;
  }

  lemma MaxRttStep(delay: Pairwise, txDelay: Pairwise, seen: set<(Node, Node)>, m: nat, x: Node, y: Node)
    requires IsMaxRtt(delay, txDelay, seen, m)
    ensures var r := Rtt(delay, txDelay, x, y);
      IsMaxRtt(delay, txDelay, seen + {(x, y)}, if r > m then r else m)
  {
    hide Rtt;
    assert (x, y) in seen + {(x, y)};
    assert forall p :: p in seen ==> p in seen + {(x, y)};
  }

  lemma MaxBdpStep(delay: Pairwise, txDelay: Pairwise, bw: Pairwise, seen: set<(Node, Node)>, m: nat, x: Node, y: Node)
    requires IsMaxBdp(delay, txDelay, bw, seen, m)
    ensures var b := Bdp(delay, txDelay, bw, x, y);
      IsMaxBdp(delay, txDelay, bw, seen + {(x, y)}, if b > m then b else m)
  {
    hide Bdp;
    assert (x, y) in seen + {(x, y)};
    assert forall p :: p in seen ==> p in seen + {(x, y)};
  }

  lemma DeriveStep(delay: Pairwise, txDelay: Pairwise, bw: Pairwise, seen: set<(Node, Node)>,
                   rtt: Pairwise, bdp: Pairwise, maxRtt: nat, maxBdp: nat, x: Node, y: Node)
    requires Derived(delay, txDelay, bw, seen, rtt, bdp, maxRtt, maxBdp)
    ensures var r, b := Rtt(delay, txDelay, x, y), Bdp(delay, txDelay, bw, x, y);
      Derived(delay, txDelay, bw, seen + {(x, y)}, Put(rtt, x, y, r), Put(bdp, x, y, b),
        if r > maxRtt then r else maxRtt, if b > maxBdp then b else maxBdp)
  {
    hide Put, Get, Rtt, Bdp, IsMaxRtt, IsMaxBdp;
    GetPut(rtt, x, y, Rtt(delay, txDelay, x, y));
    GetPut(bdp, x, y, Bdp(delay, txDelay, bw, x, y));
    MaxRttStep(delay, txDelay, seen, maxRtt, x, y);
    MaxBdpStep(delay, txDelay, bw, seen, maxBdp, x, y);
  }

  lemma SmallMod(n: nat)
    requires n < U64
    ensures n % U64 == n
  {
  }

  lemma DivideTwice(n: nat)
    ensures n / 1_000_000_000 / 8 == n / 8_000_000_000
  {
  }

  /** Without wrap-around the recorded BDP is the true product, rounded down once. */
  lemma BdpWithoutWrap(delay: nat, txDelay: nat, bw: nat)
    requires delay * 2 + txDelay < U64 && (delay * 2 + txDelay) * bw < U64
    ensures (delay * 2 + txDelay) % U64 * bw % U64 / 1_000_000_000 / 8 == (delay * 2 + txDelay) * bw / 8_000_000_000
  {
    SmallMod(delay * 2 + txDelay);
    SmallMod((delay * 2 + txDelay) * bw);
    DivideTwice((delay * 2 + txDelay) * bw);
  }
}
