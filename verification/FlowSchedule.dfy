/** scratch/QpReuseNetwork.cc, the event chain that registers flows and the completion counter that
    shuts the run down. Times are whole nanoseconds. The transport is any that reports the completion of
    each pushed message once, at some later or equal time; events due at the same time run in any order. */
module FlowSchedule {
  import opened Collections
  import QpPool

  /** What PushMessagetoClient is called with: the client, known by the tuple it was fetched for, and the size. */
  datatype Message = Message(client: QpPool.Args, bytes: nat)

  /** A row of the flow file. */
  datatype Flow = Flow(message: Message, startTime: int)

  /** A pending event: ScheduleFlowInputs; PushMessagetoClient, scheduled as the k-th; the end of the message
      pushed by that event. */
  datatype Event = Chain | Push(k: nat, message: Message) | Complete(k: nat)

  /** A message that was pushed, and when. */
  datatype Pushed = Pushed(time: int, message: Message)

  /** Start times are not before time 0 and never fall, for the first m flows. */
  ghost predicate InOrder(flows: seq<Flow>, m: nat)
    requires m <= |flows|
  {
    (m > 0 ==> flows[0].startTime >= 0) && forall k :: 0 < k < m ==> flows[k - 1].startTime <= flows[k].startTime
  }

  lemma SubsetBelow(s: set<nat>, n: nat)
    requires forall k :: k in s ==> k < n
    ensures |s| <= n
    ensures |s| == n ==> s == Below(n)
  {
    SubsetSize(s, Below(n));
  }

  /** The flows that have no entry in m yet. */
  ghost function Left<T>(flows: seq<Flow>, m: map<nat, T>): set<nat> {
    Below(|flows|) - m.Keys
  }

  lemma LeftShrinks<T>(flows: seq<Flow>, m: map<nat, T>, k: nat, t: T)
    requires k < |flows| && k !in m
    ensures Left(flows, m[k := t]) < Left(flows, m)
  {
    assert k in Left(flows, m) && k !in Left(flows, m[k := t]);
  }

  lemma {:induction false} EarliestExists(pending: map<Event, int>, keys: set<Event>) returns (e: Event)
    requires keys != {} && keys <= pending.Keys
    ensures e in keys && forall other :: other in keys ==> pending[e] <= pending[other]
    decreases |keys|
  {
    var x :| x in keys;
    if keys == {x} {
      e := x;
    } else {
      var y := EarliestExists(pending, keys - {x});
      e := if pending[x] <= pending[y] then x else y;
    }
  }

  // ---------- the state between two events, on values

  ghost predicate RegistrationsRight(flows: seq<Flow>, idx: nat, registered: seq<(nat, int, QpPool.Args)>) {
    && idx <= |flows| && |registered| == idx
    && forall k :: 0 <= k < idx ==> registered[k] == (k, flows[k].startTime, flows[k].message.client)
  }

  /** The push of flow k: its own message, 1 ns after its start. */
  function PushOf(flows: seq<Flow>, k: nat): Pushed
    requires k < |flows|
  {
    Pushed(flows[k].startTime + 1, flows[k].message)
  }

  /** Every registered flow waits for its message to be pushed 1 ns after its start, or had it pushed then, once;
      every pushed message waits for its completion or has completed, once. */
  ghost predicate FlowsRight(flows: seq<Flow>, idx: nat, now: int, pending: map<Event, int>,
                             pushed: map<nat, Pushed>, completed: map<nat, int>) {
    && idx <= |flows|
    && (forall k: nat :: k < idx ==> Push(k, flows[k].message) in pending || k in pushed)
    && (forall k: nat, m :: Push(k, m) in pending ==>
      k !in pushed && k < idx && m == flows[k].message && pending[Push(k, m)] == PushOf(flows, k).time)
    && (forall k: nat :: k in pushed ==> k < idx && pushed[k] == PushOf(flows, k))
    && (forall k: nat :: k in pushed <==> Complete(k) in pending || k in completed)
    && (forall k: nat :: Complete(k) in pending ==> k !in completed)
    && (forall k: nat :: Complete(k) in pending && k in pushed ==> pushed[k].time <= pending[Complete(k)])
    && (forall k: nat :: k in completed && k in pushed ==> pushed[k].time <= completed[k] <= now)
    && (forall e :: e in pending ==> now <= pending[e])
  }

  /** Finish ran once, when the last flow completed, or has not run. */
  ghost predicate FinishRight(flows: seq<Flow>, completed: map<nat, int>, finished: nat, finishTimes: seq<int>) {
    && (forall k :: k in completed ==> k < |flows|)
    && finished == |completed.Keys|
    && (if finished == |flows| && flows != []
        then |finishTimes| == 1 && forall k :: k in completed ==> completed[k] <= finishTimes[0]
        else finishTimes == [])
  }

  lemma InOrderNext(flows: seq<Flow>, m: nat)
    requires 0 < m < |flows| && InOrder(flows, m)
    ensures InOrder(flows, m + 1) <==> flows[m - 1].startTime <= flows[m].startTime
    ensures InOrder(flows, |flows|) ==> InOrder(flows, m + 1)
  {
  }

  lemma RegisterNext(flows: seq<Flow>, idx: nat, registered: seq<(nat, int, QpPool.Args)>)
    requires RegistrationsRight(flows, idx, registered) && idx < |flows|
    ensures RegistrationsRight(flows, idx + 1, registered + [(idx, flows[idx].startTime, flows[idx].message.client)])
  {
  }

  lemma RegisterFlow(flows: seq<Flow>, idx: nat, now: int, pending: map<Event, int>,
                     pushed: map<nat, Pushed>, completed: map<nat, int>)
    requires FlowsRight(flows, idx, now, pending, pushed, completed)
    requires idx < |flows| && now == flows[idx].startTime
    ensures Push(idx, flows[idx].message) !in pending
    ensures FlowsRight(flows, idx + 1, now, pending[Push(idx, flows[idx].message) := now + 1], pushed, completed)
  {
  }

  lemma AddChain(flows: seq<Flow>, idx: nat, now: int, pending: map<Event, int>,
                 pushed: map<nat, Pushed>, completed: map<nat, int>, t: int)
    requires FlowsRight(flows, idx, now, pending, pushed, completed) && now <= t
    ensures FlowsRight(flows, idx, now, pending[Chain := t], pushed, completed)
  {
  }

  ghost predicate IsEarliest(pending: map<Event, int>, e: Event) {
    e in pending && forall other :: other in pending ==> pending[e] <= pending[other]
  }

  lemma RunChain(flows: seq<Flow>, idx: nat, now: int, pending: map<Event, int>,
                 pushed: map<nat, Pushed>, completed: map<nat, int>)
    requires FlowsRight(flows, idx, now, pending, pushed, completed) && IsEarliest(pending, Chain)
    ensures Chain in pending
    ensures FlowsRight(flows, idx, pending[Chain], pending - {Chain}, pushed, completed)
  {
  }

  lemma RunPush(flows: seq<Flow>, idx: nat, now: int, pending: map<Event, int>,
                pushed: map<nat, Pushed>, completed: map<nat, int>, k: nat, message: Message,
                transferTime: nat)
    requires FlowsRight(flows, idx, now, pending, pushed, completed) && IsEarliest(pending, Push(k, message))
    ensures Push(k, message) in pending && k !in pushed && k < |flows| && Complete(k) !in pending
    ensures var t := pending[Push(k, message)];
      FlowsRight(flows, idx, t, (pending - {Push(k, message)})[Complete(k) := t + transferTime],
        pushed[k := Pushed(t, message)], completed)
  {
  }

  lemma RunComplete(flows: seq<Flow>, idx: nat, now: int, pending: map<Event, int>,
                    pushed: map<nat, Pushed>, completed: map<nat, int>, k: nat)
    requires FlowsRight(flows, idx, now, pending, pushed, completed) && IsEarliest(pending, Complete(k))
    ensures Complete(k) in pending && k !in completed && k < |flows|
    ensures var t := pending[Complete(k)];
      FlowsRight(flows, idx, t, pending - {Complete(k)}, pushed, completed[k := t])
  {
  }

  lemma CompleteOne(flows: seq<Flow>, completed: map<nat, int>, finished: nat, finishTimes: seq<int>, k: nat, t: int)
    requires FinishRight(flows, completed, finished, finishTimes) && k !in completed && k < |flows|
    requires forall j :: j in completed ==> completed[j] <= t
    ensures finishTimes == []
    ensures FinishRight(flows, completed[k := t], finished + 1, if finished + 1 == |flows| then [t] else [])
  {
    var more := completed[k := t];
    assert more.Keys == completed.Keys + {k};
    assert |completed.Keys + {k}| == |completed.Keys| + 1;
    SubsetBelow(more.Keys, |flows|);
    hide Below;
  }

  lemma AllDone(flows: seq<Flow>, now: int, pushed: map<nat, Pushed>, completed: map<nat, int>,
                finished: nat, finishTimes: seq<int>)
    requires FlowsRight(flows, |flows|, now, map[], pushed, completed)
    requires FinishRight(flows, completed, finished, finishTimes)
    ensures pushed == map k: nat | k < |flows| :: PushOf(flows, k)
    ensures completed.Keys == pushed.Keys && forall k :: k in pushed ==> pushed[k].time <= completed[k]
    ensures finished == |flows|
  {
    assert forall k: nat :: k < |flows| <==> k in completed;
    assert completed.Keys == Below(|flows|);
    forall k: nat ensures k in pushed <==> k < |flows| {
    }
  }

  class FlowSimulation {
    /** The rows of the flow file, flow_num of them. */
    const flows: seq<Flow>
    var now: int
    var pending: map<Event, int>
    /** A negative delay was handed to Simulator::Schedule. */
    var aborted: bool
    /** flow_input: the index and the row last read, and how many rows have been read. */
    var idx: nat
    var current: Flow
    var rowsRead: nat
    var fileClosed: bool
    /** What has been registered, pushed, completed and finished, and when. */
    var registered: seq<(nat, int, QpPool.Args)>
    var pushed: map<nat, Pushed>
    var completed: map<nat, int>
    var flowNumFinished: nat
    var finishTimes: seq<int>

    constructor (flows: seq<Flow>)
      ensures this.flows == flows && Untouched()
    {
      this.flows := flows;
      now, pending, aborted, idx, rowsRead, fileClosed := 0, map[], false, 0, 0, false;
      current := Flow(Message(QpPool.Args(0, 0, 0, 0), 0), 0);
      registered, pushed, completed, flowNumFinished, finishTimes := [], map[], map[], 0, [];
    }

    predicate Untouched()
      reads this
    {
      && now == 0 && pending == map[] && !aborted && idx == 0 && rowsRead == 0 && !fileClosed
      && registered == [] && pushed == map[] && completed == map[] && flowNumFinished == 0 && finishTimes == []
    }

    /** flow_input holds the row of flow idx while there is one. */
    ghost predicate InputRight()
      reads this`idx, this`current, this`rowsRead
    {
      && idx <= |flows|
      && rowsRead == (if idx < |flows| then idx + 1 else idx)
      && (idx < |flows| ==> current == flows[idx])
    }

    ghost predicate Recorded()
      reads this
    {
      && RegistrationsRight(flows, idx, registered)
      && FlowsRight(flows, idx, now, pending, pushed, completed)
      && FinishRight(flows, completed, flowNumFinished, finishTimes)
      && InputRight()
    }

    /** Between two events: the chain is alive exactly while flows remain, due at the next start time. */
    ghost predicate Steady()
      reads this
    {
      && Recorded()
      && (Chain in pending <==> idx < |flows|)
      && (Chain in pending ==> pending[Chain] == flows[idx].startTime)
      && (fileClosed <==> idx == |flows| && flows != [])
      && InOrder(flows, if idx < |flows| then idx + 1 else idx)
    }

    /** Simulator::Schedule. */
    method Schedule(delay: int, e: Event)
      requires e !in pending
      modifies this`pending, this`aborted
      ensures aborted == (old(aborted) || delay < 0)
      ensures pending == if delay < 0 then old(pending) else old(pending)[e := now + delay]
    {
      if delay < 0 {
        aborted := true;
      } else {
        pending := pending[e := now + delay];
      }
    }

    method ReadFlowInput()
      requires idx < |flows| ==> rowsRead < |flows|
      modifies this`current, this`rowsRead
      ensures if idx < |flows| then current == flows[old(rowsRead)] && rowsRead == old(rowsRead) + 1
              else current == old(current) && rowsRead == old(rowsRead)
    {
      if idx < |flows| {
        current := flows[rowsRead];
        rowsRead := rowsRead + 1;
      }
    }

    method ScheduleFlowInputs()
      requires Recorded() && Chain !in pending && !aborted
      requires idx < |flows| && now == flows[idx].startTime && InOrder(flows, idx + 1) && !fileClosed
      modifies this`pending, this`aborted, this`idx, this`current, this`rowsRead, this`registered, this`fileClosed
      ensures old(idx) < idx <= |flows|
      ensures aborted <==> idx < |flows| && flows[idx].startTime < now
      ensures aborted ==> !InOrder(flows, |flows|)
      ensures !aborted ==> Steady()
      ensures fileClosed <==> idx == |flows|
    {
      hide FlowsRight, FinishRight, RegistrationsRight, InOrder;
      while idx < |flows| && current.startTime == now
        invariant Recorded() && Chain !in pending && !aborted && idx >= old(idx) && !fileClosed
        invariant idx == old(idx) ==> InOrder(flows, idx + 1) && idx < |flows| && current.startTime == now
        invariant idx > old(idx) ==> InOrder(flows, idx) && flows[idx - 1].startTime == now
        decreases |flows| - idx
      {
        RegisterFlow(flows, idx, now, pending, pushed, completed);
        if idx > old(idx) { InOrderNext(flows, idx); }
        ghost var k := idx;
        RegisterNext(flows, idx, registered);
        registered := registered + [(idx, now, current.message.client)];
        Schedule(1, Push(idx, current.message));
        idx := idx + 1;
        ReadFlowInput();
        assert InOrder(flows, k + 1);
      }
      if idx < |flows| {
        InOrderNext(flows, idx);
        if current.startTime >= now {
          AddChain(flows, idx, now, pending, pushed, completed, current.startTime);
        }
        Schedule(current.startTime - now, Chain);
      } else {
        fileClosed := true;
      }
    }

    /** PushMessagetoClient; the transport will report the end of the message after `transferTime`. */
    method PushMessage(k: nat, message: Message, transferTime: nat)
      requires k !in pushed && Complete(k) !in pending
      modifies this`pending, this`pushed, this`aborted
      ensures pushed == old(pushed)[k := Pushed(now, message)]
      ensures pending == old(pending)[Complete(k) := now + transferTime] && aborted == old(aborted)
    {
      pushed := pushed[k := Pushed(now, message)];
      Schedule(transferTime, Complete(k));
    }

    method MessageFinish(k: nat)
      requires k !in completed
      modifies this`completed, this`flowNumFinished, this`finishTimes
      ensures completed == old(completed)[k := now] && flowNumFinished == old(flowNumFinished) + 1
      ensures finishTimes == if flowNumFinished == |flows| then old(finishTimes) + [now] else old(finishTimes)
    {
      completed := completed[k := now];
      flowNumFinished := flowNumFinished + 1;
      if flowNumFinished == |flows| {
        finishTimes := finishTimes + [now];
      }
    }

    /** The simulator removes the event it is about to run and moves the clock to it. */
    method Take(e: Event)
      requires e in pending
      modifies this`now, this`pending
      ensures now == old(pending)[e] && pending == old(pending) - {e}
    {
      now := pending[e];
      pending := pending - {e};
    }

    method RunChainEvent()
      requires Steady() && !aborted && IsEarliest(pending, Chain)
      modifies this`now, this`pending, this`aborted, this`idx, this`current, this`rowsRead, this`registered,
        this`fileClosed
      ensures aborted ==> !InOrder(flows, |flows|)
      ensures !aborted ==> Steady()
      ensures old(idx) < idx <= |flows|
    {
      hide FlowsRight, FinishRight, RegistrationsRight, InOrder, IsEarliest;
      RunChain(flows, idx, now, pending, pushed, completed);
      Take(Chain);
      ScheduleFlowInputs();
    }

    method RunPushEvent(k: nat, message: Message, transferTime: nat)
      requires Steady() && !aborted && IsEarliest(pending, Push(k, message))
      modifies this`now, this`pending, this`pushed, this`aborted
      ensures Steady() && !aborted
      ensures Left(flows, pushed) < Left(flows, old(pushed))
    {
      hide FlowsRight, FinishRight, RegistrationsRight, InOrder, IsEarliest, Left, Below;
      RunPush(flows, idx, now, pending, pushed, completed, k, message, transferTime);
      LeftShrinks(flows, pushed, k, Pushed(pending[Push(k, message)], message));
      Take(Push(k, message));
      PushMessage(k, message, transferTime);
    }

    method RunCompleteEvent(k: nat)
      requires Steady() && !aborted && IsEarliest(pending, Complete(k))
      modifies this`now, this`pending, this`completed, this`flowNumFinished, this`finishTimes
      ensures Steady()
      ensures Left(flows, completed) < Left(flows, old(completed))
    {
      hide FlowsRight, FinishRight, RegistrationsRight, InOrder, IsEarliest, Left, Below;
      RunComplete(flows, idx, now, pending, pushed, completed, k);
      CompletedBefore(flows, idx, pending[Complete(k)], pending - {Complete(k)}, pushed, completed, k);
      CompleteOne(flows, completed, flowNumFinished, finishTimes, k, pending[Complete(k)]);
      LeftShrinks(flows, completed, k, pending[Complete(k)]);
      Take(Complete(k));
      MessageFinish(k);
      assert [] + [now] == [now];
    }

    /** One turn of the simulator's loop: an event that is due no later than any other is run. */
    method ProcessOneEvent()
      requires Steady() && !aborted && pending != map[]
      modifies this
      ensures aborted ==> !InOrder(flows, |flows|)
      ensures !aborted ==> Steady()
      ensures old(idx) <= idx <= |flows|
      ensures idx == old(idx) ==> Left(flows, pushed) <= Left(flows, old(pushed))
      ensures idx == old(idx) && Left(flows, pushed) == Left(flows, old(pushed)) ==>
        Left(flows, completed) < Left(flows, old(completed))
    {
      hide IsEarliest, Steady, Left;
      IdxInRange();
      var e := NextEvent();
      match e {
        case Chain => RunChainEvent();
        case Push(k, message) =>
          var transferTime: nat := *;
          RunPushEvent(k, message, transferTime);
        case Complete(k) => RunCompleteEvent(k);
      }
    }

    lemma IdxInRange()
      requires Steady()
      ensures idx <= |flows|
    {
    }

    /** Lines 264-269: the first row is read and the chain started. */
    method Start()
      requires Untouched()
      modifies this
      ensures aborted ==> !InOrder(flows, |flows|)
      ensures !aborted ==> Steady()
      ensures idx == 0
    {
      hide FlowsRight, FinishRight;
      StartRight(flows);
      if |flows| > 0 {
        ReadFlowInput();
        if current.startTime >= 0 {
          AddChain(flows, 0, 0, map[], map[], map[], current.startTime);
        }
        Schedule(current.startTime - now, Chain);
      }
    }

    /** The run of `main` from line 264 on. It ends without an abort exactly when the start times are in
        order; then each flow was registered once, in file order, at its own start time, its own bytes were
        pushed to the client of its own tuple once, 1 ns later, and completed no earlier than that, and Finish
        ran once, no earlier than any completion. */
    method Simulate()
      requires Untouched()
      modifies this
      ensures aborted <==> !InOrder(flows, |flows|)
      ensures !aborted ==>
        && RegistrationsRight(flows, |flows|, registered)
        && pushed == (map k: nat | k < |flows| :: PushOf(flows, k))
        && completed.Keys == pushed.Keys && (forall k :: k in pushed ==> pushed[k].time <= completed[k])
        && |finishTimes| == (if flows == [] then 0 else 1)
        && rowsRead == |flows| && (fileClosed <==> flows != [])
        && forall k :: k in completed && finishTimes != [] ==> completed[k] <= finishTimes[0]
    {
      hide FlowsRight, FinishRight;
      Start();
      while pending != map[] && !aborted
        invariant idx <= |flows|
        invariant aborted ==> !InOrder(flows, |flows|)
        invariant !aborted ==> Steady()
        decreases |flows| - idx, Left(flows, pushed), Left(flows, completed)
      {
        ProcessOneEvent();
      }
      if !aborted {
        assert idx == |flows|;
        AllDone(flows, now, pushed, completed, flowNumFinished, finishTimes);
        FinishedOnce(flows, completed, flowNumFinished, finishTimes);
      }
    }

    /** Some pending event that is due no later than any other. */
    method NextEvent() returns (e: Event)
      requires pending != map[]
      ensures IsEarliest(pending, e)
    {
      ghost var first := EarliestExists(pending, pending.Keys);
      assert IsEarliest(pending, first);
      e :| e in pending && forall other :: other in pending ==> pending[e] <= pending[other];
    }
  }

  lemma StartRight(flows: seq<Flow>)
    ensures FlowsRight(flows, 0, 0, map[], map[], map[])
    ensures FinishRight(flows, map[], 0, [])
  {
  }

  lemma CompletedBefore(flows: seq<Flow>, idx: nat, now: int, pending: map<Event, int>, pushed: map<nat, Pushed>,
                        completed: map<nat, int>, k: nat)
    requires k !in completed && FlowsRight(flows, idx, now, pending, pushed, completed[k := now])
    ensures forall j :: j in completed ==> completed[j] <= now
  {
    forall j | j in completed ensures completed[j] <= now {
      assert completed[k := now][j] <= now;
    }
  }

  lemma FinishedOnce(flows: seq<Flow>, completed: map<nat, int>, finished: nat, finishTimes: seq<int>)
    requires FinishRight(flows, completed, finished, finishTimes) && finished == |flows|
    ensures |finishTimes| == (if flows == [] then 0 else 1)
    ensures forall k :: k in completed && finishTimes != [] ==> completed[k] <= finishTimes[0]
  {
  }
}
