/** What scratch/common.h promises about routes: the shortest ways from a host over up links whose
    inner nodes are all switches, and the next hops that follow them back. */
module Routes {
  import opened Collections

  /** A network node; `Ptr<Node>` values are compared for equality only. */
  type Node(==, !new)

  /** GetNodeType(): 0, 1 and 2. */
  datatype Kind = Host | Switch | NVSwitch

  datatype Interface = Interface(idx: nat, up: bool, delay: nat, bw: nat)

  type Links = map<Node, map<Node, Interface>>

  predicate IsUp(links: Links, a: Node, b: Node) {
    a in links && b in links[a] && links[a][b].up
  }

  datatype Net = Net(kind: Node -> Kind, links: Links) {
    predicate Up(a: Node, b: Node) {
      IsUp(links, a, b)
    }

    /** Only the source host and the switches pass packets on. */
    predicate Forwards(host: Node, a: Node) {
      a == host || kind(a) != Host
    }
  }

  ghost predicate IsRoute(net: Net, host: Node, p: seq<Node>) {
    && p != [] && p[0] == host
    && (forall i :: 0 <= i < |p| - 1 ==> net.Up(p[i], p[i + 1]) && net.Forwards(host, p[i]))
  }

  ghost predicate IsShortest(net: Net, host: Node, p: seq<Node>) {
    && IsRoute(net, host, p)
    && (forall q :: IsRoute(net, host, q) && q[|q| - 1] == p[|p| - 1] ==> |p| <= |q|)
  }

  ghost predicate Reached(net: Net, host: Node, x: Node) {
    exists p :: IsRoute(net, host, p) && p[|p| - 1] == x
  }

  /** u is the last stop before x on some shortest route from host to x. */
  ghost predicate IsPred(net: Net, host: Node, u: Node, x: Node) {
    exists p :: IsShortest(net, host, p) && |p| >= 2 && p[|p| - 2] == u && p[|p| - 1] == x
  }

  ghost predicate HasNVPred(net: Net, host: Node, x: Node) {
    exists u :: IsPred(net, host, u, x) && net.kind(u) == NVSwitch
  }

  /** The next hops from x towards host: the NVSwitches among the last stops if there are any,
      otherwise all last stops. */
  ghost predicate IsNextHop(net: Net, host: Node, u: Node, x: Node) {
    IsPred(net, host, u, x) && (net.kind(u) == NVSwitch || !HasNVPred(net, host, x))
  }

  // ---------- routing tables as the code keeps them

  type Hops = map<Node, map<Node, seq<Node>>>

  /** `nextHop[x][dst]`, which is empty where there is no entry. */
  function At(hops: Hops, x: Node, dst: Node): seq<Node> {
    if x in hops && dst in hops[x] then hops[x][dst] else []
  }

  /** The list is, without repeats, the set of next hops from x towards host. */
  ghost predicate ListsNextHops(net: Net, host: Node, x: Node, list: seq<Node>) {
    NoDuplicates(list) && forall u :: u in list <==> IsNextHop(net, host, u, x)
  }

  /** `hops` is right for the hosts of `done`, and empty for the other hosts; a switch is listed as a
      destination at exactly those hosts it serves as a last stop. */
  ghost predicate RoutesFor(net: Net, done: set<Node>, hops: Hops) {
    && (forall h, x :: h in done ==> ListsNextHops(net, h, x, At(hops, x, h)))
    && (forall h, x :: net.kind(h) == Host && h !in done ==> At(hops, x, h) == [])
    && (forall s, x :: net.kind(s) != Host ==> At(hops, x, s) == if ServesHost(net, done, s, x) then [s] else [])
  }

  ghost predicate ServesHost(net: Net, done: set<Node>, s: Node, x: Node) {
    net.kind(x) == Host && exists h :: h in done && IsPred(net, h, s, x)
  }

  // ---------- following next hops

  /** Each node of t after the first is some next hop of the node before it. */
  ghost predicate Follows(host: Node, hops: Hops, t: seq<Node>) {
    t != [] && forall i :: 0 <= i < |t| - 1 ==> t[i + 1] in At(hops, t[i], host)
  }

  lemma ShortestPrefix(net: Net, host: Node, p: seq<Node>, n: nat)
    requires IsShortest(net, host, p) && 0 < n <= |p|
    ensures IsShortest(net, host, p[..n])
  {
    var front := p[..n];
    forall q | IsRoute(net, host, q) && q[|q| - 1] == front[n - 1] ensures n <= |q| {
      var longer := q + p[n..];
      forall i | 0 <= i < |longer| - 1 ensures net.Up(longer[i], longer[i + 1]) && net.Forwards(host, longer[i]) {
        if i >= |q| - 1 {
          var j := i - |q| + n;
          assert longer[i] == p[j] && longer[i + 1] == p[j + 1];
        }
      }
      assert IsRoute(net, host, longer) && longer[|longer| - 1] == p[|p| - 1];
    }
  }

  /** All shortest routes to x have one length: the distance of x. */
  lemma ShortestSameLength(net: Net, host: Node, p: seq<Node>, q: seq<Node>)
    requires IsShortest(net, host, p) && IsShortest(net, host, q) && p[|p| - 1] == q[|q| - 1]
    ensures |p| == |q|
  {
  }

  lemma {:induction false} ReachedHasShortest(net: Net, host: Node, p: seq<Node>) returns (s: seq<Node>)
    requires IsRoute(net, host, p)
    ensures IsShortest(net, host, s) && s[|s| - 1] == p[|p| - 1]
    decreases |p|
  {
    if IsShortest(net, host, p) {
      s := p;
    } else {
      var q :| IsRoute(net, host, q) && q[|q| - 1] == p[|p| - 1] && |q| < |p|;
      s := ReachedHasShortest(net, host, q);
    }
  }

  /** There is a next hop exactly at the reached nodes other than the host itself. */
  lemma NextHopIffReached(net: Net, host: Node, x: Node)
    ensures (exists u :: IsNextHop(net, host, u, x)) <==> Reached(net, host, x) && x != host
  {
    if Reached(net, host, x) && x != host {
      var p :| IsRoute(net, host, p) && p[|p| - 1] == x;
      var s := ReachedHasShortest(net, host, p);
      assert IsPred(net, host, s[|s| - 2], x);
      if HasNVPred(net, host, x) {
        var u :| IsPred(net, host, u, x) && net.kind(u) == NVSwitch;
        assert IsNextHop(net, host, u, x);
      } else {
        assert IsNextHop(net, host, s[|s| - 2], x);
      }
    }
    if u :| IsNextHop(net, host, u, x) {
      var p :| IsShortest(net, host, p) && |p| >= 2 && p[|p| - 2] == u && p[|p| - 1] == x;
      if x == host {
        assert IsRoute(net, host, [host]);
      }
    }
  }

  lemma StepCloser(net: Net, host: Node, u: Node, x: Node) returns (q: seq<Node>)
    requires IsPred(net, host, u, x)
    ensures IsShortest(net, host, q) && q[|q| - 1] == u
    ensures IsShortest(net, host, q + [x])
  {
    var r :| IsShortest(net, host, r) && |r| >= 2 && r[|r| - 2] == u && r[|r| - 1] == x;
    q := r[..|r| - 1];
    ShortestPrefix(net, host, r, |r| - 1);
    assert r == q + [x];
  }

  /** Every choice of next hops comes one hop closer each time, so no chain is longer than the
      distance it starts at. */
  lemma {:induction false} Progress(net: Net, host: Node, hops: Hops, t: seq<Node>, p: seq<Node>) returns (q: seq<Node>)
    requires forall x :: ListsNextHops(net, host, x, At(hops, x, host))
    requires Follows(host, hops, t) && IsShortest(net, host, p) && p[|p| - 1] == t[0]
    ensures |t| <= |p|
    ensures IsShortest(net, host, q) && q[|q| - 1] == t[|t| - 1] && |q| == |p| - |t| + 1
    decreases |t|
  {
    if |t| == 1 {
      q := p;
    } else {
      var front, x, u := t[..|t| - 1], t[|t| - 2], t[|t| - 1];
      assert forall i :: 0 <= i < |front| - 1 ==> t[i + 1] in At(hops, t[i], host);
      var r := Progress(net, host, hops, front, p);
      assert t[|t| - 2 + 1] in At(hops, x, host);
      assert IsNextHop(net, host, u, x);
      q := StepCloser(net, host, u, x);
    }
  }

  /** Loop-free minimal delivery: whatever next hops are chosen, a packet that can move no further is
      at the host, and it came over a shortest route walked backwards. */
  lemma {:induction false} Delivery(net: Net, host: Node, hops: Hops, t: seq<Node>)
    requires forall x :: ListsNextHops(net, host, x, At(hops, x, host))
    requires Follows(host, hops, t) && Reached(net, host, t[0]) && At(hops, t[|t| - 1], host) == []
    ensures t[|t| - 1] == host
    ensures IsShortest(net, host, Reverse(t))
    decreases |t|
  {
    if |t| == 1 {
      NextHopIffReached(net, host, t[0]);
      assert IsRoute(net, host, [host]);
      assert Reverse(t) == [host];
    } else {
      var x, u, rest := t[0], t[1], t[1..];
      assert t[0 + 1] in At(hops, t[0], host);
      assert IsNextHop(net, host, u, x);
      var q := StepCloser(net, host, u, x);
      forall i | 0 <= i < |rest| - 1 ensures rest[i + 1] in At(hops, rest[i], host) {
        assert t[i + 1 + 1] in At(hops, t[i + 1], host);
      }
      Delivery(net, host, hops, rest);
      ExtendShortest(net, host, Reverse(rest), q, x);
    }
  }

  lemma ExtendShortest(net: Net, host: Node, r: seq<Node>, q: seq<Node>, x: Node)
    requires IsShortest(net, host, r) && IsShortest(net, host, q) && r[|r| - 1] == q[|q| - 1]
    requires IsShortest(net, host, q + [x])
    ensures IsShortest(net, host, r + [x])
  {
    var longer, other := r + [x], q + [x];
    assert |r| == |q|;
    assert net.Up(other[|q| - 1], other[|q| - 1 + 1]) && net.Forwards(host, other[|q| - 1]);
    forall i | 0 <= i < |longer| - 1 ensures net.Up(longer[i], longer[i + 1]) && net.Forwards(host, longer[i]) {
      if i < |r| - 1 { assert net.Up(r[i], r[i + 1]); }
    }
  }

  /** No host lies strictly inside a shortest route. */
  lemma InnerNodesAreSwitches(net: Net, host: Node, p: seq<Node>, i: nat)
    requires IsShortest(net, host, p) && 0 < i < |p| - 1
    ensures net.kind(p[i]) != Host
  {
    assert net.Up(p[i], p[i + 1]) && net.Forwards(host, p[i]);
    if p[i] == host {
      var shortcut := p[i..];
      forall k | 0 <= k < |shortcut| - 1
        ensures net.Up(shortcut[k], shortcut[k + 1]) && net.Forwards(host, shortcut[k])
      {
        assert net.Up(p[i + k], p[i + k + 1]);
      }
      assert IsRoute(net, host, shortcut);
    }
  }
}
