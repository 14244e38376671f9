/** The delay, transmission delay and bandwidth that CalculateRoute of scratch/common.h records, and
    the RTT and BDP derived from them, in 64-bit unsigned arithmetic. */
module PathCosts {
  import opened Collections
  import opened MachineInts
  import opened Routes
  import opened RouteSearch

  function Min(a: nat, b: nat): nat {
    if a <= b then a else b
  }

  /** `payload * 1000000000lu * 8 / bw`. */
  function TxDelay(payload: nat, bw: nat): nat
    requires bw > 0
  {
    payload * 8_000_000_000 % U64 / bw
  }

  function Step(links: Links, a: Node, b: Node): Interface {
    if a in links && b in links[a] then links[a][b] else Interface(0, false, 0, 1)
  }

  /** Rates are positive 64-bit numbers. */
  ghost predicate ValidRates(links: Links) {
    forall a, b :: 0 < Step(links, a, b).bw < U64
  }

  function DelayOf(links: Links, p: seq<Node>): nat {
    if |p| <= 1 then 0
    else DelayOf(links, p[..|p| - 1]) + Step(links, p[|p| - 2], p[|p| - 1]).delay
  }

  ghost function TxDelayOf(links: Links, payload: nat, p: seq<Node>): nat
    requires ValidRates(links)
  {
    if |p| <= 1 then 0
    else TxDelayOf(links, payload, p[..|p| - 1]) + TxDelay(payload, Step(links, p[|p| - 2], p[|p| - 1]).bw)
  }

  function BwOf(links: Links, p: seq<Node>): nat {
    if |p| <= 1 then U64 - 1
    else Min(BwOf(links, p[..|p| - 1]), Step(links, p[|p| - 2], p[|p| - 1]).bw)
  }

  /** The three numbers the search keeps for a node. */
  datatype Costs = Costs(delay: map<Node, nat>, txDelay: map<Node, nat>, bw: map<Node, nat>)

  /** They are the sum, the sum and the minimum along one and the same route: the search tree's. */
  ghost predicate CostInv(links: Links, payload: nat, s: Search, c: Costs)
    requires ValidRates(links)
  {
    && c.delay.Keys == c.txDelay.Keys == c.bw.Keys == s.dis.Keys == s.tree.Keys
    && (forall x :: x in s.dis ==>
      && c.delay[x] == DelayOf(links, s.tree[x]) % U64
      && c.txDelay[x] == TxDelayOf(links, payload, s.tree[x]) % U64
      && c.bw[x] == BwOf(links, s.tree[x]))
  }

  /** The numbers of a node y found over `link` from now. */
  function FoundOver(payload: nat, c: Costs, now: Node, y: Node, link: Interface): Costs
    requires now in c.delay && now in c.txDelay && now in c.bw && link.bw > 0
  {
    Costs(c.delay[y := (c.delay[now] + link.delay) % U64],
          c.txDelay[y := (c.txDelay[now] + TxDelay(payload, link.bw)) % U64],
          c.bw[y := Min(c.bw[now], link.bw)])
  }

  lemma ExtendCosts(links: Links, payload: nat, p: seq<Node>, y: Node)
    requires ValidRates(links) && p != []
    ensures var link := Step(links, p[|p| - 1], y);
      && DelayOf(links, p + [y]) % U64 == (DelayOf(links, p) % U64 + link.delay) % U64
      && TxDelayOf(links, payload, p + [y]) % U64 ==
        (TxDelayOf(links, payload, p) % U64 + TxDelay(payload, link.bw)) % U64
      && BwOf(links, p + [y]) == Min(BwOf(links, p), link.bw)
  {
    var longer, link := p + [y], Step(links, p[|p| - 1], y);
    assert longer[..|longer| - 1] == p;
    AddMod(DelayOf(links, p), link.delay);
    AddMod(TxDelayOf(links, payload, p), TxDelay(payload, link.bw));
  }

  lemma DiscoverCosts(net: Net, payload: nat, s: Search, c: Costs, now: Node, y: Node)
    requires ValidRates(net.links) && CostInv(net.links, payload, s, c)
    requires now in s.dis && y !in s.dis && s.tree[now] != [] && s.tree[now][|s.tree[now]| - 1] == now
    ensures s.dis.Keys == c.delay.Keys == c.txDelay.Keys == c.bw.Keys == s.tree.Keys
    ensures CostInv(net.links, payload, Discover(net, s, now, y),
      FoundOver(payload, c, now, y, Step(net.links, now, y)))
  {
    hide DelayOf, TxDelayOf, BwOf, TxDelay, Min;
    ExtendCosts(net.links, payload, s.tree[now], y);
  }

  // ---------- what the numbers of a route mean

  /** Nanoseconds times bits per second, for the bits of one packet, as the 64-bit product comes out. */
  function BitNanos(payload: nat): nat {
    8 * payload * 1_000_000_000 % U64
  }

  /** t is the whole number of nanoseconds it takes to send a packet at this rate. */
  predicate IsSendingTime(payload: nat, bw: nat, t: nat) {
    t * bw <= BitNanos(payload) < (t + 1) * bw
  }

  /** One sending time for each link of the route. */
  ghost predicate AreSendingTimes(links: Links, payload: nat, p: seq<Node>, times: seq<nat>) {
    && |times| + 1 == |p|
    && forall i :: 0 <= i < |times| ==> IsSendingTime(payload, Step(links, p[i], p[i + 1]).bw, times[i])
  }

  /** bw is the least rate along the route: no link is slower, and some link is no faster. */
  ghost predicate IsLeastRate(links: Links, p: seq<Node>, bw: nat) {
    && (forall i :: 0 <= i < |p| - 1 ==> bw <= Step(links, p[i], p[i + 1]).bw)
    && (if |p| == 1 then bw == U64 - 1 else exists i :: 0 <= i < |p| - 1 && bw == Step(links, p[i], p[i + 1]).bw)
  }

  ghost predicate AreDelays(links: Links, p: seq<Node>, delays: seq<nat>) {
    && |delays| + 1 == |p|
    && forall i :: 0 <= i < |delays| ==> delays[i] == Step(links, p[i], p[i + 1]).delay
  }

  lemma TxDelayIsSendingTime(payload: nat, bw: nat)
    requires bw > 0
    ensures IsSendingTime(payload, bw, TxDelay(payload, bw))
  {
    assert payload * 8_000_000_000 == 8 * payload * 1_000_000_000;
    DividesDown(BitNanos(payload), bw);
  }

  lemma DividesDown(n: nat, d: nat)
    requires d > 0
    ensures n / d * d <= n < (n / d + 1) * d
  {
    assert n == n / d * d + n % d;
    assert (n / d + 1) * d == n / d * d + d;
  }

  /** While 8 * payload * 10^9 fits into 64 bits, a sending time is the true one. */
  lemma SendingTimeWithoutWrap(payload: nat, bw: nat, t: nat)
    requires 8 * payload * 1_000_000_000 < U64 && IsSendingTime(payload, bw, t)
    ensures t * bw <= 8 * payload * 1_000_000_000 < (t + 1) * bw
  {
  }

  lemma SumAppend(xs: seq<nat>, x: nat)
    ensures Sum(xs + [x]) == Sum(xs) + x
  {
    assert (xs + [x])[..|xs|] == xs;
  }

  lemma MoreSendingTimes(links: Links, payload: nat, p: seq<Node>, y: Node, times: seq<nat>, t: nat)
    requires AreSendingTimes(links, payload, p, times) && IsSendingTime(payload, Step(links, p[|p| - 1], y).bw, t)
    ensures AreSendingTimes(links, payload, p + [y], times + [t])
  {
    hide IsSendingTime, Step;
    var longer, more := p + [y], times + [t];
    forall i | 0 <= i < |more| ensures IsSendingTime(payload, Step(links, longer[i], longer[i + 1]).bw, more[i]) {
      if i < |times| {
        assert longer[i] == p[i] && longer[i + 1] == p[i + 1] && more[i] == times[i];
      }
    }
  }

  lemma {:induction false} TxDelayIsSum(links: Links, payload: nat, p: seq<Node>) returns (times: seq<nat>)
    requires ValidRates(links) && p != []
    ensures AreSendingTimes(links, payload, p, times) && TxDelayOf(links, payload, p) == Sum(times)
  {
    hide IsSendingTime, TxDelay, Step, Sum;
    if |p| == 1 {
      times := [];
      assert Sum([]) == 0 by { SumOfNothing(); }
    } else {
      var front, y := p[..|p| - 1], p[|p| - 1];
      var t := TxDelay(payload, Step(links, p[|p| - 2], y).bw);
      hide AreSendingTimes;
      var before := TxDelayIsSum(links, payload, front);
      TxDelayIsSendingTime(payload, Step(links, p[|p| - 2], y).bw);
      assert front[|front| - 1] == p[|p| - 2] && p == front + [y];
      MoreSendingTimes(links, payload, front, y, before, t);
      SumAppend(before, t);
      times := before + [t];
    }
  }

  lemma SumOfNothing()
    ensures Sum([]) == 0
  {
  }

  lemma {:induction false} DelayIsSum(links: Links, p: seq<Node>) returns (delays: seq<nat>)
    requires p != []
    ensures AreDelays(links, p, delays) && DelayOf(links, p) == Sum(delays)
  {
    hide Step;
    if |p| == 1 {
      delays := [];
    } else {
      var front, d := p[..|p| - 1], Step(links, p[|p| - 2], p[|p| - 2 + 1]).delay;
      var before := DelayIsSum(links, front);
      SumAppend(before, d);
      delays := before + [d];
      hide DelayOf, Sum;
      forall i | 0 <= i < |delays| ensures delays[i] == Step(links, p[i], p[i + 1]).delay {
        if i < |before| {
          assert before[i] == Step(links, front[i], front[i + 1]).delay;
        }
      }
    }
  }

  lemma LessRate(links: Links, p: seq<Node>, y: Node, bw: nat)
    requires p != [] && IsLeastRate(links, p, bw) && Step(links, p[|p| - 1], y).bw < U64
    ensures IsLeastRate(links, p + [y], Min(bw, Step(links, p[|p| - 1], y).bw))
  {
    hide Step;
    var longer, last := p + [y], Step(links, p[|p| - 1], y).bw;
    var least := Min(bw, last);
    forall i | 0 <= i < |longer| - 1 ensures least <= Step(links, longer[i], longer[i + 1]).bw {
      if i < |p| - 1 {
        assert longer[i] == p[i] && longer[i + 1] == p[i + 1];
      }
    }
    if least == last {
      assert longer[|p| - 1] == p[|p| - 1] && longer[|p| - 1 + 1] == y;
    } else {
      assert |p| > 1;
      var i :| 0 <= i < |p| - 1 && bw == Step(links, p[i], p[i + 1]).bw;
      assert longer[i] == p[i] && longer[i + 1] == p[i + 1];
    }
  }

  lemma {:induction false} BwIsLeastRate(links: Links, p: seq<Node>)
    requires ValidRates(links) && p != []
    ensures IsLeastRate(links, p, BwOf(links, p))
  {
    if |p| > 1 {
      hide IsLeastRate, Step, Min;
      var front, y := p[..|p| - 1], p[|p| - 1];
      BwIsLeastRate(links, front);
      assert front[|front| - 1] == p[|p| - 2] && p == front + [y];
      LessRate(links, front, y, BwOf(links, front));
    }
  }
}
