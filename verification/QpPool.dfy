/** scratch/QpReuseNetwork.cc, getHashKey and getClient: any number of callers share one table of QP
    pools and the port counters, each touching them only inside its critical sections.

    The global flow_input that line 71 reads is taken to hold the caller's own src and dst, as it does
    at the call in ScheduleFlowInputs. */
module QpPool {

  // ---------- the printed key

  function Digit(d: nat): char
    requires d < 10
  {
    ['0', '1', '2', '3', '4', '5', '6', '7', '8', '9'][d]
  }

  /** std::to_string of an unsigned number. */
  function Decimal(n: nat): string {
    if n < 10 then [Digit(n)] else Decimal(n / 10) + [Digit(n % 10)]
  }

  datatype Args = Args(src: nat, dst: nat, pg: nat, dport: nat)

  function HashKey(a: Args): string {
    Decimal(a.src) + ['_'] + (Decimal(a.dst) + ['_'] + (Decimal(a.pg) + ['_'] + Decimal(a.dport)))
  }

  lemma {:induction false} DecimalHasNoSeparator(n: nat)
    ensures '_' !in Decimal(n) && Decimal(n) != []
  {
    if n >= 10 { DecimalHasNoSeparator(n / 10); }
  }

  lemma {:induction false} DecimalInjective(m: nat, n: nat)
    requires Decimal(m) == Decimal(n)
    ensures m == n
  {
    var s, t := Decimal(m), Decimal(n);
    if m >= 10 { DecimalHasNoSeparator(m / 10); }
    if n >= 10 { DecimalHasNoSeparator(n / 10); }
    assert s[|s| - 1] == Digit(m % 10) && t[|t| - 1] == Digit(n % 10);
    if m >= 10 {
      assert Decimal(m / 10) == s[..|s| - 1] && Decimal(n / 10) == t[..|t| - 1];
      DecimalInjective(m / 10, n / 10);
    }
  }

  lemma BeforeSeparator(x: string, r: string, k: nat)
    requires k < |x|
    ensures (x + ['_'] + r)[k] in x
  {
    assert (x + ['_'] + r)[k] == x[k];
  }

  lemma SplitAtSeparator(x: string, y: string, r: string, t: string)
    requires '_' !in x && '_' !in y && x + ['_'] + r == y + ['_'] + t
    ensures x == y && r == t
  {
    var s, u := x + ['_'] + r, y + ['_'] + t;
    if |x| < |y| {
      BeforeSeparator(y, t, |x|);
    } else if |y| < |x| {
      BeforeSeparator(x, r, |y|);
    }
    assert s[|x|] == '_' && u[|y|] == '_';
    assert s[..|x|] == x && u[..|y|] == y;
    assert s[|x| + 1..] == r && u[|y| + 1..] == t;
  }

  /** Different (src, dst, pg, dport) tuples never print the same key. */
  lemma HashKeyInjective(a: Args, b: Args)
    requires HashKey(a) == HashKey(b)
    ensures a == b
  {
    DecimalHasNoSeparator(a.src);
    DecimalHasNoSeparator(b.src);
    DecimalHasNoSeparator(a.dst);
    DecimalHasNoSeparator(b.dst);
    DecimalHasNoSeparator(a.pg);
    DecimalHasNoSeparator(b.pg);
    var ra, rb := Decimal(a.pg) + ['_'] + Decimal(a.dport), Decimal(b.pg) + ['_'] + Decimal(b.dport);
    SplitAtSeparator(Decimal(a.src), Decimal(b.src), Decimal(a.dst) + ['_'] + ra, Decimal(b.dst) + ['_'] + rb);
    SplitAtSeparator(Decimal(a.dst), Decimal(b.dst), ra, rb);
    SplitAtSeparator(Decimal(a.pg), Decimal(b.pg), Decimal(a.dport), Decimal(b.dport));
    DecimalInjective(a.src, b.src);
    DecimalInjective(a.dst, b.dst);
    DecimalInjective(a.pg, b.pg);
    DecimalInjective(a.dport, b.dport);
  }

  // ---------- the shared state and the callers

  const MAX_QPS: nat := 2
  const U16: nat := 0x1_0000

  /** An installed RdmaClient; `draw` is the place of its port in the order of all draws. */
  datatype Client = Client(args: Args, port: nat, draw: nat)

  /** Where a caller stands: before its first critical section, between port draws, before the second
      check, before fetching its client, returned. */
  datatype Phase =
    | Checking
    | Drawing(newApps: seq<Client>)
    | Committing(newApps: seq<Client>)
    | Fetching
    | Returned(client: Client)

  datatype Caller = Caller(args: Args, phase: Phase)

  datatype Draw = Draw(src: nat, dst: nat, port: nat)

  /** apps, portNumber, every port ever drawn, and the calls in progress. */
  datatype State = State(
    apps: map<string, seq<Client>>, portNumber: map<(nat, nat), nat>, draws: seq<Draw>, callers: seq<Caller>)

  /** `apps[key]`, an empty container where there is no entry. */
  function Pool(s: State, key: string): seq<Client> {
    if key in s.apps then s.apps[key] else []
  }

  function PortNumber(ports: map<(nat, nat), nat>, src: nat, dst: nat): nat {
    if (src, dst) in ports then ports[(src, dst)] else 0
  }

  function WithPhase(s: State, c: nat, phase: Phase): State
    requires c < |s.callers|
  {
    s.(callers := s.callers[c := s.callers[c].(phase := phase)])
  }

  predicate Enabled(s: State, c: nat, idx: nat) {
    && c < |s.callers| && idx < MAX_QPS
    && match s.callers[c].phase
       case Returned(_) => false
       case Fetching => idx < |Pool(s, HashKey(s.callers[c].args))|
       case _ => true
  }

  /** Caller c goes through its next critical section; idx is the random choice made before the last. */
  function Next(s: State, c: nat, idx: nat): State
    requires Enabled(s, c, idx)
  {
    var Caller(a, phase) := s.callers[c];
    var key := HashKey(a);
    match phase
    case Checking => WithPhase(s, c, if Pool(s, key) == [] then Drawing([]) else Fetching)
    case Drawing(newApps) =>
      var port := PortNumber(s.portNumber, a.src, a.dst);
      var more := newApps + [Client(a, port, |s.draws|)];
      WithPhase(s.(portNumber := s.portNumber[(a.src, a.dst) := (port + 1) % U16],
                   draws := s.draws + [Draw(a.src, a.dst, port)]),
                c, if |more| == MAX_QPS then Committing(more) else Drawing(more))
    case Committing(newApps) =>
      WithPhase(if Pool(s, key) == [] then s.(apps := s.apps[key := newApps]) else s, c, Fetching)
    case Fetching => WithPhase(s, c, Returned(Pool(s, key)[idx]))
  }

  // ---------- the invariant

  ghost predicate MadeFor(s: State, a: Args, client: Client) {
    client.args == a && client.draw < |s.draws| && s.draws[client.draw] == Draw(a.src, a.dst, client.port)
  }

  ghost predicate AllMadeFor(s: State, a: Args, clients: seq<Client>) {
    && (forall i :: 0 <= i < |clients| ==> MadeFor(s, a, clients[i]))
    && (forall i, j :: 0 <= i < j < |clients| ==> clients[i].draw < clients[j].draw)
  }

  ghost predicate CallerInv(s: State, caller: Caller) {
    match caller.phase
    case Checking => true
    case Drawing(newApps) => |newApps| < MAX_QPS && AllMadeFor(s, caller.args, newApps)
    case Committing(newApps) => |newApps| == MAX_QPS && AllMadeFor(s, caller.args, newApps)
    case Fetching => Pool(s, HashKey(caller.args)) != []
    case Returned(client) => client in Pool(s, HashKey(caller.args))
  }

  /** A pool that exists is complete, and its clients were made for the tuple its key prints. */
  ghost predicate PoolsInv(s: State) {
    forall a: Args :: Pool(s, HashKey(a)) != [] ==>
      |Pool(s, HashKey(a))| == MAX_QPS && AllMadeFor(s, a, Pool(s, HashKey(a)))
  }

  function Drawn(draws: seq<Draw>, src: nat, dst: nat): nat {
    if draws == [] then 0
    else
      var last := draws[|draws| - 1];
      Drawn(draws[..|draws| - 1], src, dst) + if last.src == src && last.dst == dst then 1 else 0
  }

  /** The port a pair gets after n draws: n after its first one, in 16 bits. */
  function PortAfter(first: map<(nat, nat), nat>, src: nat, dst: nat, n: nat): nat {
    (PortNumber(first, src, dst) + n) % U16
  }

  ghost predicate DrawnInTurn(first: map<(nat, nat), nat>, draws: seq<Draw>, k: nat)
    requires k < |draws|
  {
    draws[k].port == PortAfter(first, draws[k].src, draws[k].dst, Drawn(draws[..k], draws[k].src, draws[k].dst))
  }

  ghost predicate PortsInv(first: map<(nat, nat), nat>, draws: seq<Draw>, ports: map<(nat, nat), nat>) {
    && (forall k :: 0 <= k < |draws| ==> DrawnInTurn(first, draws, k))
    && (forall src, dst :: PortNumber(ports, src, dst) == PortAfter(first, src, dst, Drawn(draws, src, dst)))
  }

  ghost predicate Inv(first: map<(nat, nat), nat>, s: State) {
    && PoolsInv(s)
    && (forall c :: 0 <= c < |s.callers| ==> CallerInv(s, s.callers[c]))
    && PortsInv(first, s.draws, s.portNumber)
  }

  function Initial(first: map<(nat, nat), nat>, calls: seq<Args>): State {
    State(map[], first, [], seq(|calls|, i requires 0 <= i < |calls| => Caller(calls[i], Checking)))
  }

  ghost predicate FirstPorts(first: map<(nat, nat), nat>) {
    forall p :: p in first ==> first[p] < U16
  }

  /** Nothing that was drawn or committed before is undone. */
  ghost predicate Keeps(s: State, s': State) {
    && s.draws <= s'.draws
    && (forall key: string :: Pool(s, key) != [] ==> Pool(s', key) == Pool(s, key))
  }

  lemma MadeForKept(s: State, s': State, a: Args, clients: seq<Client>)
    requires AllMadeFor(s, a, clients) && s.draws <= s'.draws
    ensures AllMadeFor(s', a, clients)
  {
    forall i | 0 <= i < |clients| ensures MadeFor(s', a, clients[i]) {
      assert MadeFor(s, a, clients[i]);
    }
  }

  lemma CallerKept(s: State, s': State, caller: Caller)
    requires CallerInv(s, caller) && Keeps(s, s')
    ensures CallerInv(s', caller)
  {
    hide AllMadeFor;
    if caller.phase.Drawing? || caller.phase.Committing? {
      MadeForKept(s, s', caller.args, caller.phase.newApps);
    }
  }

  /** No step replaces a pool. */
  lemma StepKeeps(s: State, c: nat, idx: nat)
    requires Enabled(s, c, idx)
    ensures Keeps(s, Next(s, c, idx))
  {
  }

  lemma PortAfterNext(first: map<(nat, nat), nat>, src: nat, dst: nat, n: nat)
    ensures (PortAfter(first, src, dst, n) + 1) % U16 == PortAfter(first, src, dst, n + 1)
  {
  }

  lemma DrawKeepsPorts(first: map<(nat, nat), nat>, draws: seq<Draw>, ports: map<(nat, nat), nat>, src: nat, dst: nat)
    requires PortsInv(first, draws, ports)
    ensures var port := PortNumber(ports, src, dst);
      PortsInv(first, draws + [Draw(src, dst, port)], ports[(src, dst) := (port + 1) % U16])
  {
    hide PortAfter, DrawnInTurn, Drawn, PortNumber;
    var port := PortNumber(ports, src, dst);
    var draw := Draw(src, dst, port);
    forall k | 0 <= k < |draws| ensures DrawnInTurn(first, draws + [draw], k) {
      EarlierDraw(first, draws, draw, k);
    }
    LastDraw(first, draws, draw);
    forall x, y ensures
      PortNumber(ports[(src, dst) := (port + 1) % U16], x, y) == PortAfter(first, x, y, Drawn(draws + [draw], x, y))
    {
      CountersAfter(first, draws, ports, src, dst, x, y);
    }
  }

  lemma EarlierDraw(first: map<(nat, nat), nat>, draws: seq<Draw>, draw: Draw, k: nat)
    requires k < |draws| && DrawnInTurn(first, draws, k)
    ensures DrawnInTurn(first, draws + [draw], k)
  {
    hide PortAfter;
    assert (draws + [draw])[..k] == draws[..k];
  }

  lemma LastDraw(first: map<(nat, nat), nat>, draws: seq<Draw>, draw: Draw)
    requires draw.port == PortAfter(first, draw.src, draw.dst, Drawn(draws, draw.src, draw.dst))
    ensures DrawnInTurn(first, draws + [draw], |draws|)
  {
    hide PortAfter;
    assert (draws + [draw])[..|draws|] == draws;
  }

  lemma CountersAfter(first: map<(nat, nat), nat>, draws: seq<Draw>, ports: map<(nat, nat), nat>,
                      src: nat, dst: nat, x: nat, y: nat)
    requires PortNumber(ports, src, dst) == PortAfter(first, src, dst, Drawn(draws, src, dst))
    requires PortNumber(ports, x, y) == PortAfter(first, x, y, Drawn(draws, x, y))
    ensures var port := PortNumber(ports, src, dst);
      PortNumber(ports[(src, dst) := (port + 1) % U16], x, y)
        == PortAfter(first, x, y, Drawn(draws + [Draw(src, dst, port)], x, y))
  {
    PortAfterNext(first, src, dst, Drawn(draws, src, dst));
    hide PortAfter;
    assert (draws + [Draw(src, dst, PortNumber(ports, src, dst))])[..|draws|] == draws;
  }

  lemma PoolsKept(s: State, c: nat, idx: nat)
    requires PoolsInv(s) && Enabled(s, c, idx) && CallerInv(s, s.callers[c])
    ensures PoolsInv(Next(s, c, idx))
  {
    hide AllMadeFor;
    var s', caller := Next(s, c, idx), s.callers[c];
    StepKeeps(s, c, idx);
    forall a: Args | Pool(s', HashKey(a)) != []
      ensures |Pool(s', HashKey(a))| == MAX_QPS && AllMadeFor(s', a, Pool(s', HashKey(a)))
    {
      if Pool(s, HashKey(a)) != [] {
        MadeForKept(s, s', a, Pool(s, HashKey(a)));
      } else {
        assert HashKey(a) == HashKey(caller.args);
        HashKeyInjective(a, caller.args);
        MadeForKept(s, s', a, caller.phase.newApps);
      }
    }
  }

  lemma MovedCaller(s: State, c: nat, idx: nat)
    requires PoolsInv(s) && Enabled(s, c, idx) && CallerInv(s, s.callers[c])
    ensures CallerInv(Next(s, c, idx), Next(s, c, idx).callers[c])
  {
    var s', caller := Next(s, c, idx), s.callers[c];
    if caller.phase.Drawing? {
      hide HashKey;
      MadeForKept(s, s', caller.args, caller.phase.newApps);
      forall i | 0 <= i < |caller.phase.newApps| ensures caller.phase.newApps[i].draw < |s.draws| {
        assert MadeFor(s, caller.args, caller.phase.newApps[i]);
      }
    }
  }

  lemma StepInv(first: map<(nat, nat), nat>, s: State, c: nat, idx: nat)
    requires Inv(first, s) && Enabled(s, c, idx)
    ensures Inv(first, Next(s, c, idx))
  {
    hide PoolsInv, CallerInv, PortsInv, HashKey;
    var s' := Next(s, c, idx);
    StepKeeps(s, c, idx);
    PoolsKept(s, c, idx);
    forall k | 0 <= k < |s'.callers| ensures CallerInv(s', s'.callers[k]) {
      if k == c { MovedCaller(s, c, idx); } else { CallerKept(s, s', s.callers[k]); }
    }
    if s.callers[c].phase.Drawing? {
      DrawKeepsPorts(first, s.draws, s.portNumber, s.callers[c].args.src, s.callers[c].args.dst);
    }
  }

  lemma InitInv(first: map<(nat, nat), nat>, calls: seq<Args>)
    requires FirstPorts(first)
    ensures Inv(first, Initial(first, calls))
  {
    hide HashKey;
  }

  // ---------- what holds of every run

  /** A run: in each step some caller passes one critical section. */
  ghost predicate IsRun(first: map<(nat, nat), nat>, calls: seq<Args>, moves: seq<(nat, nat)>, states: seq<State>) {
    && |states| == |moves| + 1
    && states[0] == Initial(first, calls)
    && (forall i :: 0 <= i < |moves| ==>
      Enabled(states[i], moves[i].0, moves[i].1) && states[i + 1] == Next(states[i], moves[i].0, moves[i].1))
  }

  lemma {:induction false} RunInv(first: map<(nat, nat), nat>, calls: seq<Args>, moves: seq<(nat, nat)>,
                                  states: seq<State>)
    requires FirstPorts(first) && IsRun(first, calls, moves, states)
    ensures forall i :: 0 <= i < |states| ==> Inv(first, states[i])
    ensures forall i, j :: 0 <= i <= j < |states| ==> Keeps(states[i], states[j])
  {
    hide Inv, Next, Enabled;
    if moves == [] {
      InitInv(first, calls);
    } else {
      var n := |moves| - 1;
      assert Enabled(states[n], moves[n].0, moves[n].1) && states[n + 1] == Next(states[n], moves[n].0, moves[n].1);
      RunInv(first, calls, moves[..n], states[..n + 1]);
      assert forall i :: 0 <= i <= n ==> states[..n + 1][i] == states[i];
      StepInv(first, states[n], moves[n].0, moves[n].1);
      StepKeeps(states[n], moves[n].0, moves[n].1);
      forall i, j | 0 <= i <= j < |states| ensures Keeps(states[i], states[j]) {
        if i <= n && j == n + 1 {
          assert Keeps(states[..n + 1][i], states[..n + 1][n]);
        }
      }
    }
  }

  /** A pool, once there, has MAX_QPS clients made for its own tuple and is never replaced. */
  lemma PoolIsCommittedOnce(first: map<(nat, nat), nat>, calls: seq<Args>, moves: seq<(nat, nat)>, states: seq<State>,
                            i: nat, j: nat, a: Args)
    requires FirstPorts(first) && IsRun(first, calls, moves, states) && i <= j < |states|
    requires Pool(states[i], HashKey(a)) != []
    ensures Pool(states[j], HashKey(a)) == Pool(states[i], HashKey(a))
    ensures |Pool(states[i], HashKey(a))| == MAX_QPS
    ensures forall k :: 0 <= k < MAX_QPS ==> Pool(states[i], HashKey(a))[k].args == a
  {
    hide Next, Enabled, HashKey;
    RunInv(first, calls, moves, states);
    assert Keeps(states[i], states[j]);
    assert Inv(first, states[i]);
    forall k | 0 <= k < MAX_QPS ensures Pool(states[i], HashKey(a))[k].args == a {
      assert MadeFor(states[i], a, Pool(states[i], HashKey(a))[k]);
    }
  }

  /** Whoever returned, and whenever, got a member of the one pool of its tuple as it is at the end. */
  lemma ReturnsPoolMember(first: map<(nat, nat), nat>, calls: seq<Args>, moves: seq<(nat, nat)>, states: seq<State>,
                          i: nat, c: nat)
    requires FirstPorts(first) && IsRun(first, calls, moves, states) && i < |states|
    requires c < |states[i].callers| && states[i].callers[c].phase.Returned?
    ensures states[i].callers[c].phase.client in Pool(states[|moves|], HashKey(states[i].callers[c].args))
    ensures states[i].callers[c].phase.client.args == states[i].callers[c].args
  {
    hide Next, Enabled, HashKey;
    var caller := states[i].callers[c];
    RunInv(first, calls, moves, states);
    assert Inv(first, states[i]);
    assert CallerInv(states[i], caller);
    var pool := Pool(states[i], HashKey(caller.args));
    var k :| 0 <= k < |pool| && pool[k] == caller.phase.client;
    assert MadeFor(states[i], caller.args, pool[k]);
    assert Keeps(states[i], states[|moves|]);
  }

  /** The client fetched is the one drawn: member number idx of the pool as it is at the end. */
  lemma FetchesTheDrawn(first: map<(nat, nat), nat>, calls: seq<Args>, moves: seq<(nat, nat)>, states: seq<State>,
                        k: nat)
    requires FirstPorts(first) && IsRun(first, calls, moves, states) && k < |moves|
    requires moves[k].0 < |states[k].callers| && states[k].callers[moves[k].0].phase == Fetching
    ensures var (c, idx) := moves[k];
      var pool := Pool(states[|moves|], HashKey(states[k].callers[c].args));
      idx < |pool| && c < |states[k + 1].callers| && states[k + 1].callers[c].phase == Returned(pool[idx])
  {
    hide HashKey;
    assert Enabled(states[k], moves[k].0, moves[k].1) && states[k + 1] == Next(states[k], moves[k].0, moves[k].1);
    RunInv(first, calls, moves, states);
    assert Keeps(states[k], states[|moves|]);
    assert Inv(first, states[k]);
    assert CallerInv(states[k], states[k].callers[moves[k].0]);
  }

  /** So every member of a pool can be returned. */
  lemma EveryMemberReturnable(first: map<(nat, nat), nat>, s: State, c: nat, idx: nat)
    requires Inv(first, s) && c < |s.callers| && s.callers[c].phase == Fetching
    ensures |Pool(s, HashKey(s.callers[c].args))| == MAX_QPS
    ensures idx < MAX_QPS ==>
      && Enabled(s, c, idx)
      && Next(s, c, idx).callers[c].phase == Returned(Pool(s, HashKey(s.callers[c].args))[idx])
  {
    hide PortsInv, HashKey;
    assert CallerInv(s, s.callers[c]);
  }

  predicate Settled(phase: Phase) {
    phase == Checking || phase == Fetching || phase.Returned?
  }

  lemma StaysSettled(s: State, c: nat, idx: nat, a: Args, me: nat)
    requires Enabled(s, c, idx) && me < |s.callers| && s.callers[me].args == a
    requires Pool(s, HashKey(a)) != [] && Settled(s.callers[me].phase)
    ensures Next(s, c, idx).callers[me].args == a && Settled(Next(s, c, idx).callers[me].phase)
    ensures c == me ==> Next(s, c, idx).draws == s.draws && Next(s, c, idx).portNumber == s.portNumber
  {
    hide HashKey;
  }

  /** A caller that has not looked before the pool of its tuple is there never builds one: it draws no ports and goes
      straight to fetching. */
  lemma {:induction false} LateCallersDrawNothing(first: map<(nat, nat), nat>, calls: seq<Args>, moves: seq<(nat, nat)>,
                                                  states: seq<State>, i: nat, j: nat, me: nat)
    requires FirstPorts(first) && IsRun(first, calls, moves, states) && i <= j < |states| && me < |states[i].callers|
    requires Pool(states[i], HashKey(states[i].callers[me].args)) != [] && states[i].callers[me].phase == Checking
    ensures me < |states[j].callers| && states[j].callers[me].args == states[i].callers[me].args
    ensures Settled(states[j].callers[me].phase)
    ensures j < |moves| && moves[j].0 == me ==> states[j + 1].draws == states[j].draws
    decreases j
  {
    hide HashKey, Next, Enabled, Inv, Settled;
    var a := states[i].callers[me].args;
    assert Settled(Checking) by { CheckingIsSettled(); }
    RunInv(first, calls, moves, states);
    assert Keeps(states[i], states[j]);
    if i < j {
      LateCallersDrawNothing(first, calls, moves, states, i, j - 1, me);
      assert Keeps(states[i], states[j - 1]);
      Follows(first, calls, moves, states, j - 1);
      StaysSettled(states[j - 1], moves[j - 1].0, moves[j - 1].1, a, me);
      CallersStay(states[j - 1], moves[j - 1].0, moves[j - 1].1);
    }
    if j < |moves| {
      Follows(first, calls, moves, states, j);
      StaysSettled(states[j], moves[j].0, moves[j].1, a, me);
    }
  }

  lemma CheckingIsSettled()
    ensures Settled(Checking)
  {
  }

  lemma CallersStay(s: State, c: nat, idx: nat)
    requires Enabled(s, c, idx)
    ensures |Next(s, c, idx).callers| == |s.callers|
  {
    hide HashKey;
  }

  lemma Follows(first: map<(nat, nat), nat>, calls: seq<Args>, moves: seq<(nat, nat)>, states: seq<State>, k: nat)
    requires IsRun(first, calls, moves, states) && k < |moves|
    ensures Enabled(states[k], moves[k].0, moves[k].1) && states[k + 1] == Next(states[k], moves[k].0, moves[k].1)
  {
  }

  lemma {:induction false} DrawnGrows(draws: seq<Draw>, i: nat, j: nat, src: nat, dst: nat)
    requires i <= j <= |draws|
    ensures Drawn(draws[..i], src, dst) <= Drawn(draws[..j], src, dst)
    ensures i < j && draws[i].src == src && draws[i].dst == dst ==>
      Drawn(draws[..i], src, dst) < Drawn(draws[..j], src, dst)
    decreases j - i
  {
    if i < j {
      assert draws[..j][..j - 1] == draws[..j - 1];
      DrawnGrows(draws, i, j - 1, src, dst);
    }
  }

  lemma PortDistance(first: map<(nat, nat), nat>, src: nat, dst: nat, m: nat, n: nat)
    requires m < n
    ensures PortAfter(first, src, dst, m) == PortAfter(first, src, dst, n) <==> (n - m) % U16 == 0
    ensures n - m < U16 ==> PortAfter(first, src, dst, m) != PortAfter(first, src, dst, n)
  {
    var p := PortNumber(first, src, dst);
    assert p + n == (p + m) + (n - m);
  }

  /** Two draws for one host pair give the same port exactly when a whole number of 16-bit rounds lies
      between them; so all ports of a pair differ, those of discarded pools included, as long as it has
      had at most 65536 draws. */
  lemma PortsDiffer(first: map<(nat, nat), nat>, s: State, i: nat, j: nat)
    requires Inv(first, s) && i < j < |s.draws|
    requires s.draws[i].src == s.draws[j].src && s.draws[i].dst == s.draws[j].dst
    ensures var src, dst := s.draws[i].src, s.draws[i].dst;
      var rounds := Drawn(s.draws[..j], src, dst) - Drawn(s.draws[..i], src, dst);
      && rounds > 0
      && (s.draws[i].port == s.draws[j].port <==> rounds % U16 == 0)
      && (Drawn(s.draws, src, dst) <= U16 ==> s.draws[i].port != s.draws[j].port)
  {
    hide PoolsInv, CallerInv, PortAfter;
    assert DrawnInTurn(first, s.draws, i) && DrawnInTurn(first, s.draws, j);
    var src, dst := s.draws[i].src, s.draws[i].dst;
    var m, n := Drawn(s.draws[..i], src, dst), Drawn(s.draws[..j], src, dst);
    DrawnGrows(s.draws, i, j, src, dst);
    DrawnGrows(s.draws, j, |s.draws|, src, dst);
    assert s.draws[..|s.draws|] == s.draws;
    PortDistance(first, src, dst, m, n);
  }

  function PhaseLeft(phase: Phase): nat {
    match phase
    case Checking => MAX_QPS + 3
    case Drawing(newApps) => if |newApps| < MAX_QPS then MAX_QPS - |newApps| + 2 else 2
    case Committing(_) => 2
    case Fetching => 1
    case Returned(_) => 0
  }

  /** No caller ever waits for another: it can always go on, and it returns after a bounded number of
      critical sections of its own. */
  lemma CallerReturns(first: map<(nat, nat), nat>, s: State, c: nat, idx: nat)
    requires Inv(first, s) && c < |s.callers| && !s.callers[c].phase.Returned? && idx < MAX_QPS
    ensures Enabled(s, c, idx)
    ensures PhaseLeft(Next(s, c, idx).callers[c].phase) < PhaseLeft(s.callers[c].phase)
    ensures forall k :: 0 <= k < |s.callers| && k != c ==> Next(s, c, idx).callers[k] == s.callers[k]
  {
    hide PortsInv, HashKey;
    assert CallerInv(s, s.callers[c]);
  }
}
