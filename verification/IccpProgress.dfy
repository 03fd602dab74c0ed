/**
 When two ICCP peers of the same redundancy group come up: under every fair schedule both reach
 OPERATIONAL, if and only if no capability message has been lost.
 */
module IccpProgress {
  import opened Wrappers
  import opened IccpCsm
  import opened IccpSession

  /** The activities that have to recur; application traffic may come in between. */
  datatype Activity = RunA | RunB | ReceiveA | ReceiveB

  function ActivityOf(step: Step): Option<Activity> {
    match step
    case TransitA(_) => Some(RunA)
    case TransitB(_) => Some(RunB)
    case DeliverA => Some(ReceiveA)
    case DeliverB => Some(ReceiveB)
    case _ => None
  }

  type Schedule = nat -> Step

  function StateAt(s: Session, sched: Schedule, n: nat): Session {
    if n == 0 then s else Next(StateAt(s, sched, n - 1), sched(n - 1))
  }

  ghost predicate HappensAfter(sched: Schedule, n: nat, act: Activity) {
    exists m: nat :: m >= n && ActivityOf(sched(m)) == Some(act)
  }

  /** Every activity happens again and again. */
  ghost predicate Fair(sched: Schedule) {
    forall n: nat, act: Activity :: HappensAfter(sched, n, act)
  }

  predicate Done(s: Session) {
    s.a.state.Operational? && s.b.state.Operational?
  }

  // ---- The condition ----

  /** The capability of `y` has not been lost: once sent it is known to `x` or on its way. */
  predicate Keeps(x: Csm, y: Csm, pending: seq<Message>) {
    HasSpoken(y.state) ==> x.info.peerCapability || HasType(pending, MSG_CAPABILITY)
  }

  predicate CapabilitiesKept(s: Session) {
    Keeps(s.a, s.b, PendingA(s)) && Keeps(s.b, s.a, PendingB(s))
  }

  /** Both peers have left NONEXISTENT, the only state in which messages are dropped. */
  predicate BothUp(s: Session) {
    !s.a.state.Nonexistent? && !s.b.state.Nonexistent?
  }

  predicate Alive(s: Session) {
    Invariant(s) && BothUp(s) && CapabilitiesKept(s)
  }

  // ---- Progress ----

  function Weight(state: ConnectionState): nat {
    match state
    case Nonexistent => 9
    case Initialized => 8
    case CapSent => 5
    case CapRec => 4
    case Connecting => 1
    case Operational => 0
  }

  predicate IsControl(m: Message) {
    m.msgType == MSG_CAPABILITY || m.msgType == MSG_RG_CONNECT
  }

  /** How many messages have to be taken from a queue to get at its last control message. */
  function Reach(q: seq<Message>): nat {
    if q == [] then 0
    else if Reach(q[1..]) > 0 || IsControl(q[0]) then 1 + Reach(q[1..]) else 0
  }

  /** What is left to do in a queue: a message in the channel is worth two, one that is queued is worth
      one, and those behind the last control message nothing. */
  function Cost(inbox: seq<Message>, chan: seq<Message>): nat {
    if Reach(chan) > 0 then |inbox| + 2 * Reach(chan) else Reach(inbox)
  }

  lemma {:induction false} ReachConcat(p: seq<Message>, q: seq<Message>)
    ensures Reach(p + q) == if Reach(q) > 0 then |p| + Reach(q) else Reach(p)
  {
    if p == [] {
      assert p + q == q;
    } else {
      assert (p + q)[1..] == p[1..] + q;
      ReachConcat(p[1..], q);
    }
  }

  lemma {:induction false} ReachControl(q: seq<Message>)
    ensures Reach(q) > 0 <==> HasType(q, MSG_CAPABILITY) || HasType(q, MSG_RG_CONNECT)
  {
    if q != [] {
      ReachControl(q[1..]);
      assert forall m :: m in q <==> m == q[0] || m in q[1..];
    }
  }

  /** What is left to do: first by states, then by the queues. */
  datatype Rank = Rank(states: nat, queues: nat)

  predicate Below(r: Rank, r': Rank) {
    r.states < r'.states || (r.states == r'.states && r.queues < r'.queues)
  }

  function Work(s: Session): Rank {
    Rank(Weight(s.a.state) + Weight(s.b.state), Cost(s.a.inbox, s.toA) + Cost(s.b.inbox, s.toB))
  }

  /** Running a peer that stays in its state sends nothing; nothing moves a peer back. */
  lemma RunWork(x: Csm, y: Csm, msg: Option<Message>, cap: bool, conn: bool)
    requires !x.state.Nonexistent? && (msg.Some? ==> WellSent(msg.value, y))
    requires Knows(x, y, cap || IsOfType(msg, MSG_CAPABILITY), conn || IsOfType(msg, MSG_RG_CONNECT))
    ensures var (x', out) := Run(x, msg);
            && !x'.state.Nonexistent? && x'.inbox == x.inbox
            && (HasSpoken(x'.state) && !HasSpoken(x.state) ==> IsOfType(out, MSG_CAPABILITY))
            && (HasSpoken(x.state) ==> HasSpoken(x'.state))
            && (IsOfType(msg, MSG_CAPABILITY) || x.info.peerCapability ==> x'.info.peerCapability)
            && (Weight(x'.state) < Weight(x.state) || (x'.state == x.state && out.None?))
            && (x'.state == x.state && !(msg.Some? && IsControl(msg.value)) ==> NextState(x.state, x.info) == x.state)
  {
  }

  lemma TransitAlive(s: Session, ready: bool)
    requires Alive(s)
    ensures var s' := NextA(s, ready);
            && BothUp(s') && CapabilitiesKept(s')
            && s'.a.inbox == Tail(s.a.inbox) && s'.b == s.b && s'.toA == s.toA
            && (Weight(s'.a.state) < Weight(s.a.state) || (s'.a.state == s.a.state && s'.toB == s.toB))
            && (s'.a.state == s.a.state ==>
                  (s.a.inbox != [] && IsControl(s.a.inbox[0])) || NextState(s.a.state, s.a.info) == s.a.state)
  {
    var s' := NextA(s, ready);
    var (a, out) := Transit(s.a, ready);
    TakeHead(s.a.inbox, s.toA, MSG_CAPABILITY);
    TakeHead(s.a.inbox, s.toA, MSG_RG_CONNECT);
    if s.a.inbox != [] { assert s.a.inbox[0] in PendingA(s); }
    RunWork(s.a.(inbox := Tail(s.a.inbox)), s.b, Head(s.a.inbox),
            HasType(Tail(s.a.inbox) + s.toA, MSG_CAPABILITY), HasType(Tail(s.a.inbox) + s.toA, MSG_RG_CONNECT));
    assert PendingB(s') == PendingB(s) + ToSeq(out);
    HasInConcat(PendingB(s), ToSeq(out), MSG_CAPABILITY);
    HasInOption(out, MSG_CAPABILITY);
    if out.None? {
      assert s.toB + ToSeq(out) == s.toB;
    }
  }

  lemma ArriveAlive(s: Session)
    requires Alive(s)
    ensures BothUp(ArriveA(s)) && CapabilitiesKept(ArriveA(s))
  {
    ArrivePending(s);
  }

  lemma SendAlive(s: Session, m: Message)
    requires Alive(s)
    ensures BothUp(SendA(s, m)) && CapabilitiesKept(SendA(s, m))
  {
    if IsAppMessage(s.a, m) {
      assert PendingB(SendA(s, m)) == PendingB(s) + [Numbered(s.a, m)];
      HasInConcat(PendingB(s), [Numbered(s.a, m)], MSG_CAPABILITY);
    }
  }

  lemma SwapAlive(s: Session)
    ensures Alive(Swap(s)) == Alive(s) && Work(Swap(s)) == Work(s)
    ensures Swap(Swap(s)) == s
  {
  }

  lemma StepAlive(s: Session, step: Step)
    requires Alive(s)
    ensures Alive(Next(s, step))
  {
    NextKeepsInvariant(s, step);
    SwapAlive(s);
    match step
    case TransitA(ready) => TransitAlive(s, ready);
    case TransitB(ready) => TransitAlive(Swap(s), ready);
    case DeliverA => ArriveAlive(s);
    case DeliverB => ArriveAlive(Swap(s));
    case AppSendA(m) => SendAlive(s, m);
    case AppSendB(m) => SendAlive(Swap(s), m);
  }

  /** An activity whose next step leaves less to do. */
  predicate Enabled(s: Session, act: Activity) {
    match act
    case RunA => CanRun(s.a, s.toA)
    case RunB => CanRun(s.b, s.toB)
    case ReceiveA => Reach(s.toA) > 0
    case ReceiveB => Reach(s.toB) > 0
  }

  predicate CanRun(x: Csm, chan: seq<Message>) {
    (x.inbox != [] && Cost(x.inbox, chan) > 0) || NextState(x.state, x.info) != x.state
  }

  /** Either there is less to do, or what is enabled stays so and has not just happened. */
  ghost predicate Advances(s: Session, s': Session, done: Option<Activity>) {
    || Below(Work(s'), Work(s))
    || (Work(s') == Work(s) && forall act :: Enabled(s, act) ==> Enabled(s', act) && done != Some(act))
  }

  lemma CostOfTail(inbox: seq<Message>, chan: seq<Message>)
    requires inbox != []
    ensures if Cost(inbox, chan) > 0 then Cost(Tail(inbox), chan) < Cost(inbox, chan) else Cost(Tail(inbox), chan) == 0
    ensures IsControl(inbox[0]) ==> Cost(inbox, chan) > 0
  {
  }

  lemma TransitAdvances(s: Session, ready: bool)
    requires Alive(s)
    ensures Advances(s, NextA(s, ready), Some(RunA))
  {
    TransitAlive(s, ready);
    if s.a.inbox != [] {
      CostOfTail(s.a.inbox, s.toA);
    }
  }

  /** Queueing a message, or handing it to the application, brings the last control message closer. */
  lemma CostOfArrival(inbox: seq<Message>, inbox': seq<Message>, chan: seq<Message>)
    requires chan != [] && (inbox' == inbox + [chan[0]] || (inbox' == inbox && !IsControl(chan[0])))
    ensures if Reach(chan) > 0 then Cost(inbox', chan[1..]) < Cost(inbox, chan) else Cost(inbox', chan[1..]) == Cost(inbox, chan)
  {
    ReachConcat(inbox, [chan[0]]);
  }

  lemma ArriveAdvances(s: Session)
    ensures Advances(s, ArriveA(s), Some(ReceiveA))
  {
    if s.toA != [] {
      CostOfArrival(s.a.inbox, ArriveA(s).a.inbox, s.toA);
    }
  }

  lemma SendAdvances(s: Session, m: Message)
    ensures Advances(s, SendA(s, m), None)
  {
    if IsAppMessage(s.a, m) {
      ReachConcat(s.toB, [Numbered(s.a, m)]);
    }
  }

  function Flip(act: Activity): Activity {
    match act
    case RunA => RunB
    case RunB => RunA
    case ReceiveA => ReceiveB
    case ReceiveB => ReceiveA
  }

  function FlipDone(done: Option<Activity>): Option<Activity> {
    if done.Some? then Some(Flip(done.value)) else None
  }

  lemma SwapAdvances(s: Session, s': Session, done: Option<Activity>)
    requires Advances(Swap(s), Swap(s'), done)
    ensures Advances(s, s', FlipDone(done))
  {
    if !Below(Work(s'), Work(s)) {
      forall act | Enabled(s, act)
        ensures Enabled(s', act) && FlipDone(done) != Some(act)
      {
        assert Enabled(Swap(s), Flip(act));
      }
    }
  }

  /** Every step leaves less to do, or keeps enabled what is enabled. */
  lemma StepWork(s: Session, step: Step)
    requires Alive(s)
    ensures Advances(s, Next(s, step), ActivityOf(step))
  {
    SwapAlive(s);
    match step
    case TransitA(ready) => TransitAdvances(s, ready);
    case DeliverA => ArriveAdvances(s);
    case AppSendA(m) => SendAdvances(s, m);
    case TransitB(ready) =>
      TransitAdvances(Swap(s), ready);
      SwapAdvances(s, Next(s, step), Some(RunA));
    case DeliverB =>
      ArriveAdvances(Swap(s));
      SwapAdvances(s, Next(s, step), Some(ReceiveA));
    case AppSendB(m) =>
      SendAdvances(Swap(s), m);
      SwapAdvances(s, Next(s, step), None);
  }

  lemma ControlOrNone(x: Csm, chan: seq<Message>)
    ensures Reach(chan) > 0 || CanRun(x, chan)
      || (!HasType(x.inbox + chan, MSG_CAPABILITY) && !HasType(x.inbox + chan, MSG_RG_CONNECT))
  {
    ReachConcat(x.inbox, chan);
    ReachControl(x.inbox + chan);
  }

  /** As long as the peers are not both OPERATIONAL, something is enabled. */
  lemma NoDeadlock(s: Session) returns (act: Activity)
    requires Alive(s) && !Done(s)
    ensures Enabled(s, act)
  {
    if Reach(s.toA) > 0 { return ReceiveA; }
    if Reach(s.toB) > 0 { return ReceiveB; }
    if CanRun(s.a, s.toA) { return RunA; }
    ControlOrNone(s.a, s.toA);
    ControlOrNone(s.b, s.toB);
    act := RunB;
  }

  lemma {:induction false} StaysTrue(p: nat -> bool, j: nat, n: nat)
    requires p(j) && j <= n && forall k: nat :: p(k) ==> p(k + 1)
    ensures p(n)
    decreases n
  {
    if n > j { StaysTrue(p, j, n - 1); }
  }

  lemma AliveNext(s: Session, sched: Schedule, n: nat)
    requires Alive(StateAt(s, sched, n))
    ensures Alive(StateAt(s, sched, n + 1))
  {
    StepAlive(StateAt(s, sched, n), sched(n));
  }

  lemma StateAtAlive(s: Session, sched: Schedule, m: nat, n: nat)
    requires Alive(StateAt(s, sched, m)) && m <= n
    ensures Alive(StateAt(s, sched, n))
  {
    var p: nat -> bool := (k: nat) => Alive(StateAt(s, sched, k));
    forall k: nat | p(k)
      ensures p(k + 1)
    {
      AliveNext(s, sched, k);
    }
    StaysTrue(p, m, n);
  }

  lemma RunAdvances(s: Session, sched: Schedule, m: nat, k: nat)
    requires Alive(StateAt(s, sched, m)) && m <= k
    ensures Advances(StateAt(s, sched, k), StateAt(s, sched, k + 1), ActivityOf(sched(k)))
  {
    StateAtAlive(s, sched, m, k);
    StepWork(StateAt(s, sched, k), sched(k));
  }

  ghost predicate AdvancesAt(at: nat -> Session, sched: Schedule, k: nat) {
    Advances(at(k), at(k + 1), ActivityOf(sched(k)))
  }

  /** Waiting for an enabled activity: at the latest when it happens there is less to do. */
  lemma Wait(at: nat -> Session, sched: Schedule, n: nat, m: nat, act: Activity) returns (j: nat)
    requires forall k :: k >= n ==> AdvancesAt(at, sched, k)
    requires Enabled(at(n), act) && n <= m && ActivityOf(sched(m)) == Some(act)
    ensures j >= n && Below(Work(at(j)), Work(at(n)))
    decreases m - n
  {
    assert AdvancesAt(at, sched, n);
    if Below(Work(at(n + 1)), Work(at(n))) {
      j := n + 1;
    } else {
      j := Wait(at, sched, n + 1, m, act);
    }
  }

  lemma WaitFor(s: Session, sched: Schedule, n: nat, m: nat, act: Activity) returns (j: nat)
    requires Alive(StateAt(s, sched, n)) && Enabled(StateAt(s, sched, n), act)
    requires n <= m && ActivityOf(sched(m)) == Some(act)
    ensures j >= n && Below(Work(StateAt(s, sched, j)), Work(StateAt(s, sched, n)))
  {
    var at: nat -> Session := (k: nat) => StateAt(s, sched, k);
    forall k: nat | k >= n
      ensures AdvancesAt(at, sched, k)
    {
      RunAdvances(s, sched, n, k);
    }
    j := Wait(at, sched, n, m, act);
  }

  /** The next point at which a session that is not done has less to do. */
  lemma NextDecrease(s: Session, sched: Schedule, n: nat) returns (j: nat)
    requires Alive(StateAt(s, sched, n)) && Fair(sched) && !Done(StateAt(s, sched, n))
    ensures j >= n && Below(Work(StateAt(s, sched, j)), Work(StateAt(s, sched, n)))
  {
    var act := NoDeadlock(StateAt(s, sched, n));
    assert HappensAfter(sched, n, act);
    var m: nat :| m >= n && ActivityOf(sched(m)) == Some(act);
    j := WaitFor(s, sched, n, m, act);
  }

  lemma EventuallyDone(s: Session, sched: Schedule, n: nat) returns (j: nat)
    requires Alive(StateAt(s, sched, n)) && Fair(sched)
    ensures j >= n && Done(StateAt(s, sched, j))
    decreases Work(StateAt(s, sched, n)).states, Work(StateAt(s, sched, n)).queues
  {
    if Done(StateAt(s, sched, n)) {
      j := n;
    } else {
      var k := NextDecrease(s, sched, n);
      StateAtAlive(s, sched, n, k);
      j := EventuallyDone(s, sched, k);
    }
  }

  lemma DoneNext(s: Session, sched: Schedule, n: nat)
    requires Alive(StateAt(s, sched, n)) && Done(StateAt(s, sched, n))
    ensures Done(StateAt(s, sched, n + 1))
  {
    NextKeepsOperational(StateAt(s, sched, n), sched(n));
  }

  predicate AliveAndDone(s: Session) { Alive(s) && Done(s) }

  lemma DoneStays(s: Session, sched: Schedule, j: nat, n: nat)
    requires AliveAndDone(StateAt(s, sched, j)) && j <= n
    ensures AliveAndDone(StateAt(s, sched, n))
  {
    var p: nat -> bool := (k: nat) => AliveAndDone(StateAt(s, sched, k));
    forall k: nat | p(k)
      ensures p(k + 1)
    {
      AliveNext(s, sched, k);
      DoneNext(s, sched, k);
    }
    StaysTrue(p, j, n);
  }

  // ---- A lost capability ----

  /** `x` has missed the capability of `y`, which sends it only once. */
  predicate Missed(x: Csm, y: Csm, pending: seq<Message>) {
    HasSpoken(y.state) && !x.info.peerCapability && !HasType(pending, MSG_CAPABILITY)
  }

  predicate Stuck(s: Session) {
    Missed(s.a, s.b, PendingA(s)) || Missed(s.b, s.a, PendingB(s))
  }

  lemma RunMissed(x: Csm, y: Csm, msg: Option<Message>, capX: bool, connX: bool)
    requires !x.state.Nonexistent? && (msg.Some? ==> WellSent(msg.value, y))
    requires Knows(x, y, capX || IsOfType(msg, MSG_CAPABILITY), connX || IsOfType(msg, MSG_RG_CONNECT))
    ensures var (x', out) := Run(x, msg);
            && (HasSpoken(x.state) ==> HasSpoken(x'.state) && !IsOfType(out, MSG_CAPABILITY))
            && (!x.info.peerCapability && !IsOfType(msg, MSG_CAPABILITY) ==> !x'.info.peerCapability)
  {
  }

  lemma TransitMissed(s: Session, ready: bool)
    requires Invariant(s)
    ensures var s' := NextA(s, ready);
            && (Missed(s.a, s.b, PendingA(s)) ==> Missed(s'.a, s'.b, PendingA(s')))
            && (Missed(s.b, s.a, PendingB(s)) ==> Missed(s'.b, s'.a, PendingB(s')))
  {
    var (a, out) := Transit(s.a, ready);
    TakeHead(s.a.inbox, s.toA, MSG_CAPABILITY);
    TakeHead(s.a.inbox, s.toA, MSG_RG_CONNECT);
    if s.a.inbox != [] { assert s.a.inbox[0] in PendingA(s); }
    if !s.a.state.Nonexistent? {
      RunMissed(s.a.(inbox := Tail(s.a.inbox)), s.b, Head(s.a.inbox),
                HasType(Tail(s.a.inbox) + s.toA, MSG_CAPABILITY), HasType(Tail(s.a.inbox) + s.toA, MSG_RG_CONNECT));
    }
    assert PendingB(NextA(s, ready)) == PendingB(s) + ToSeq(out);
    HasInConcat(PendingB(s), ToSeq(out), MSG_CAPABILITY);
    HasInOption(out, MSG_CAPABILITY);
  }

  predicate StuckForGood(s: Session) {
    Invariant(s) && Stuck(s)
  }

  lemma SendMissed(s: Session, m: Message)
    requires Stuck(s)
    ensures Stuck(SendA(s, m))
  {
    if IsAppMessage(s.a, m) {
      assert PendingB(SendA(s, m)) == PendingB(s) + [Numbered(s.a, m)];
      HasInConcat(PendingB(s), [Numbered(s.a, m)], MSG_CAPABILITY);
    }
  }

  lemma StepStuck(s: Session, step: Step)
    requires StuckForGood(s)
    ensures StuckForGood(Next(s, step))
  {
    NextKeepsInvariant(s, step);
    match step
    case TransitA(ready) => TransitMissed(s, ready);
    case TransitB(ready) => TransitMissed(Swap(s), ready);
    case DeliverA => ArrivePending(s);
    case DeliverB => ArrivePending(Swap(s));
    case AppSendA(m) => SendMissed(s, m);
    case AppSendB(m) => SendMissed(Swap(s), m);
  }

  lemma StuckNext(s: Session, sched: Schedule, n: nat)
    requires StuckForGood(StateAt(s, sched, n))
    ensures StuckForGood(StateAt(s, sched, n + 1))
  {
    StepStuck(StateAt(s, sched, n), sched(n));
  }

  lemma StuckForever(s: Session, sched: Schedule, m: nat, n: nat)
    requires StuckForGood(StateAt(s, sched, m)) && m <= n
    ensures StuckForGood(StateAt(s, sched, n))
  {
    var p: nat -> bool := (k: nat) => StuckForGood(StateAt(s, sched, k));
    forall k: nat | p(k)
      ensures p(k + 1)
    {
      StuckNext(s, sched, k);
    }
    StaysTrue(p, m, n);
  }

  // ---- The theorem ----

  /** From some point on, both peers are OPERATIONAL. */
  ghost predicate ComesUp(s: Session, sched: Schedule) {
    exists j: nat :: DoneFrom(s, sched, j)
  }

  ghost predicate DoneFrom(s: Session, sched: Schedule, j: nat) {
    forall n: nat :: n >= j ==> Done(StateAt(s, sched, n))
  }

  /** After a capability was lost, the session never comes up. */
  lemma StuckNeverUp(s: Session, sched: Schedule, m: nat)
    requires StuckForGood(StateAt(s, sched, m))
    ensures !ComesUp(s, sched)
  {
    forall j: nat
      ensures !DoneFrom(s, sched, j)
    {
      var n := if j < m then m else j;
      StuckForever(s, sched, m, n);
      assert !Done(StateAt(s, sched, n));
    }
  }

  lemma AliveComesUp(s: Session, sched: Schedule, m: nat)
    requires Alive(StateAt(s, sched, m)) && Fair(sched)
    ensures ComesUp(s, sched)
  {
    var j := EventuallyDone(s, sched, m);
    StateAtAlive(s, sched, m, j);
    forall n: nat | n >= j
      ensures Done(StateAt(s, sched, n))
    {
      DoneStays(s, sched, j, n);
    }
    assert DoneFrom(s, sched, j);
  }

  /** Once both peers have left NONEXISTENT, a fair schedule brings both to OPERATIONAL for good if
      and only if neither has missed the other's capability message. */
  lemma ComesUpExactly(s: Session, sched: Schedule)
    requires Invariant(s) && BothUp(s) && Fair(sched)
    ensures ComesUp(s, sched) <==> CapabilitiesKept(s)
  {
    if CapabilitiesKept(s) {
      AliveComesUp(s, sched, 0);
    } else {
      StuckNeverUp(s, sched, 0);
    }
  }

  /** The same for every state that some run of two peers of one redundancy group reaches. */
  lemma EveryRunComesUpExactly(rgId: int, nameA: string, nameB: string, steps: seq<Step>, sched: Schedule)
    requires Fair(sched) && BothUp(RunSteps(Reset(rgId, rgId, nameA, nameB), steps))
    ensures var s := RunSteps(Reset(rgId, rgId, nameA, nameB), steps);
            ComesUp(s, sched) <==> CapabilitiesKept(s)
  {
    RunKeepsInvariant(Reset(rgId, rgId, nameA, nameB), steps);
    ComesUpExactly(RunSteps(Reset(rgId, rgId, nameA, nameB), steps), sched);
  }

  /** In particular two freshly initialized peers with nothing on its way always come up. */
  lemma InitializedPeersComeUp(s: Session, sched: Schedule)
    requires Fair(sched) && Invariant(s)
    requires s.a.state.Initialized? && s.b.state.Initialized?
    ensures ComesUp(s, sched)
  {
    ComesUpExactly(s, sched);
  }

  /** A peer in NONEXISTENT drops what it takes from its queue. This run loses a capability: A comes
      up first and sends it, B takes it from the queue on its way up. No schedule helps afterwards. */
  lemma CapabilityCanBeLost(rgId: int, nameA: string, nameB: string, sched: Schedule)
    requires Fair(sched)
    ensures var s := RunSteps(Reset(rgId, rgId, nameA, nameB), [TransitA(true), TransitA(false), DeliverB, TransitB(true)]);
            Invariant(s) && BothUp(s) && !ComesUp(s, sched)
  {
    var s0 := Reset(rgId, rgId, nameA, nameB);
    var s1 := Next(s0, TransitA(true));
    var s2 := Next(s1, TransitA(false));
    var s3 := Next(s2, DeliverB);
    var s4 := Next(s3, TransitB(true));
    var steps := [TransitA(true), TransitA(false), DeliverB, TransitB(true)];
    assert steps[..3] == [TransitA(true), TransitA(false), DeliverB];
    assert steps[..3][..2] == [TransitA(true), TransitA(false)] && steps[..3][..2][..1] == [TransitA(true)];
    assert RunSteps(s0, [TransitA(true)]) == s1;
    assert RunSteps(s0, [TransitA(true), TransitA(false)]) == s2;
    assert RunSteps(s0, steps[..3]) == s3;
    RunKeepsInvariant(s0, steps);
    assert s1.a.state == Initialized && s1.toB == [];
    assert s2.a.state == CapSent && |s2.toB| == 1;
    assert s3.b.state.Nonexistent? && |s3.b.inbox| == 1 && s3.toB == [];
    assert s4.b.inbox == [] && s4.toB == [] && PendingB(s4) == [];
    ComesUpExactly(s4, sched);
  }

  /** Fair schedules exist. */
  lemma RoundRobinIsFair()
    ensures Fair((n: nat) => if n % 4 == 0 then TransitA(true) else if n % 4 == 1 then DeliverB
                             else if n % 4 == 2 then TransitB(true) else DeliverA)
  {
    var sched: Schedule := (n: nat) => if n % 4 == 0 then TransitA(true) else if n % 4 == 1 then DeliverB
                                       else if n % 4 == 2 then TransitB(true) else DeliverA;
    forall n: nat, act: Activity
      ensures HappensAfter(sched, n, act)
    {
      var m := 4 * n + match act case RunA => 0 case ReceiveB => 1 case RunB => 2 case ReceiveA => 3;
      assert m >= n && ActivityOf(sched(m)) == Some(act);
    }
  }
}
