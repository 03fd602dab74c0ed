/**
 Two ICCP peers that talk over reliable first-in first-out channels: what holds in every run.
 */
module IccpSession {
  import opened Wrappers
  import opened IccpCsm

  /** Two state machines and the messages on their way to each. */
  datatype Session = Session(a: Csm, b: Csm, toA: seq<Message>, toB: seq<Message>)

  datatype Step =
    | TransitA(ready: bool)    // one call of iccp_csm_transit
    | TransitB(ready: bool)
    | DeliverA                 // the next message arrives and is queued
    | DeliverB
    | AppSendA(m: Message)     // the application sends on the same connection
    | AppSendB(m: Message)

  function Reset(rgA: int, rgB: int, nameA: string, nameB: string): Session {
    Session(ResetCsm(rgA, nameA), ResetCsm(rgB, nameB), [], [])
  }

  function ToSeq(m: Option<Message>): seq<Message> {
    if m.Some? then [m.value] else []
  }

  /** The application sends application data and NAKs, with the redundancy group of its connection. */
  predicate IsAppMessage(c: Csm, m: Message) {
    m.msgType in {MSG_RG_APP_DATA, MSG_NOTIFICATION} && m.rgId == c.info.rgId
  }

  function NextA(s: Session, ready: bool): Session {
    var (a, out) := Transit(s.a, ready);
    s.(a := a, toB := s.toB + ToSeq(out))
  }

  function ArriveA(s: Session): Session {
    if s.toA == [] then s else s.(a := Enqueue(s.a, s.toA[0]), toA := s.toA[1..])
  }

  /** A message of the application, with the next message id. */
  function Numbered(c: Csm, m: Message): Message { m.(msgId := c.log.nextMsgId) }

  function SendA(s: Session, m: Message): Session {
    if IsAppMessage(s.a, m)
    then s.(a := s.a.(log := Logged(s.a.log, Some(Numbered(s.a, m)))), toB := s.toB + [Numbered(s.a, m)]) else s
  }

  /** The same session seen from the other side. */
  function Swap(s: Session): Session {
    Session(s.b, s.a, s.toB, s.toA)
  }

  function Next(s: Session, step: Step): Session {
    match step
    case TransitA(ready) => NextA(s, ready)
    case TransitB(ready) => Swap(NextA(Swap(s), ready))
    case DeliverA => ArriveA(s)
    case DeliverB => Swap(ArriveA(Swap(s)))
    case AppSendA(m) => SendA(s, m)
    case AppSendB(m) => Swap(SendA(Swap(s), m))
  }

  function RunSteps(s: Session, steps: seq<Step>): Session {
    if steps == [] then s else Next(RunSteps(s, steps[..|steps| - 1]), steps[|steps| - 1])
  }

  // ---- Messages that have not been handled yet ----

  predicate HasType(q: seq<Message>, msgType: int) {
    exists m :: m in q && m.msgType == msgType
  }

  function PendingA(s: Session): seq<Message> {
    s.a.inbox + s.toA
  }

  function PendingB(s: Session): seq<Message> {
    s.b.inbox + s.toB
  }

  lemma HasInConcat(p: seq<Message>, q: seq<Message>, msgType: int)
    ensures HasType(p + q, msgType) <==> HasType(p, msgType) || HasType(q, msgType)
  {
  }

  predicate IsOfType(m: Option<Message>, msgType: int) {
    m.Some? && m.value.msgType == msgType
  }

  lemma HasInOption(m: Option<Message>, msgType: int)
    ensures HasType(ToSeq(m), msgType) <==> IsOfType(m, msgType)
  {
  }

  /** Taking the first message off a queue. */
  lemma TakeHead(inbox: seq<Message>, chan: seq<Message>, msgType: int)
    ensures inbox + chan == ToSeq(Head(inbox)) + (Tail(inbox) + chan)
    ensures HasType(inbox + chan, msgType) <==> IsOfType(Head(inbox), msgType) || HasType(Tail(inbox) + chan, msgType)
  {
  }

  // ---- Peers of the same redundancy group ----

  predicate IsLinked(state: ConnectionState) {
    state.Connecting? || state.Operational?
  }

  predicate HasSpoken(state: ConnectionState) {
    !state.Nonexistent? && !state.Initialized?
  }

  /** What `y` sends: good capabilities, good connects and application traffic, never a disconnect. */
  predicate WellSent(m: Message, y: Csm) {
    && (IsGoodCapability(m) || IsGoodConnect(m) || m.msgType in {MSG_RG_APP_DATA, MSG_NOTIFICATION})
    && (m.msgType != MSG_CAPABILITY ==> m.rgId == y.info.rgId)
  }

  /** What `x` knows about `y`: `cap` and `conn` say whether a capability or a connect of `y` is on
      its way to `x`. */
  predicate Knows(x: Csm, y: Csm, cap: bool, conn: bool) {
    && x.info.rgId == y.info.rgId && x.info.statusCode == 0
    && (if x.state.Nonexistent? then !x.info.peerCapability && !x.info.peerConnect
        else x.connected && x.info.senderCapability)
    && (x.state.CapRec? || IsLinked(x.state) ==> x.info.peerCapability)
    && (x.info.peerCapability || cap ==> HasSpoken(y.state))
    && (x.info.peerConnect || conn <==> IsLinked(y.state))
    && (x.state.Connecting? ==> !x.info.peerConnect)
    && (x.state.Operational? ==> x.info.peerConnect && x.info.senderConnect)
  }

  predicate Agrees(x: Csm, y: Csm, pending: seq<Message>) {
    && (forall m :: m in pending ==> WellSent(m, y))
    && Knows(x, y, HasType(pending, MSG_CAPABILITY), HasType(pending, MSG_RG_CONNECT))
  }

  predicate Invariant(s: Session) {
    Agrees(s.a, s.b, PendingA(s)) && Agrees(s.b, s.a, PendingB(s))
  }

  /** A transition of `x` that takes the message `msg` of `y` keeps what both sides know. */
  lemma RunKnows(x: Csm, y: Csm, msg: Option<Message>, capX: bool, connX: bool, capY: bool, connY: bool)
    requires !x.state.Nonexistent?
    requires msg.Some? ==> WellSent(msg.value, y)
    requires Knows(x, y, capX || IsOfType(msg, MSG_CAPABILITY), connX || IsOfType(msg, MSG_RG_CONNECT))
    requires Knows(y, x, capY, connY)
    ensures var (x', out) := Run(x, msg);
            && Knows(x', y, capX, connX)
            && Knows(y, x', capY || IsOfType(out, MSG_CAPABILITY), connY || IsOfType(out, MSG_RG_CONNECT))
            && (out.Some? ==> WellSent(out.value, x'))
  {
  }

  lemma TransitAgrees(x: Csm, y: Csm, toX: seq<Message>, pendingY: seq<Message>, ready: bool)
    requires Agrees(x, y, x.inbox + toX) && Agrees(y, x, pendingY)
    ensures var (x', out) := Transit(x, ready);
            Agrees(x', y, x'.inbox + toX) && Agrees(y, x', pendingY + ToSeq(out))
  {
    var (x', out) := Transit(x, ready);
    var rest := Tail(x.inbox) + toX;
    forall t
      ensures HasType(x.inbox + toX, t) <==> IsOfType(Head(x.inbox), t) || HasType(rest, t)
      ensures HasType(pendingY + ToSeq(out), t) <==> HasType(pendingY, t) || IsOfType(out, t)
    {
      TakeHead(x.inbox, toX, t);
      HasInConcat(pendingY, ToSeq(out), t);
      HasInOption(out, t);
    }
    assert forall m :: m in rest ==> m in x.inbox + toX;
    if !x.state.Nonexistent? {
      RunKnows(x.(inbox := Tail(x.inbox)), y, Head(x.inbox), HasType(rest, MSG_CAPABILITY), HasType(rest, MSG_RG_CONNECT),
               HasType(pendingY, MSG_CAPABILITY), HasType(pendingY, MSG_RG_CONNECT));
    }
  }

  lemma NextKeepsInvariantA(s: Session, ready: bool)
    requires Invariant(s)
    ensures Invariant(NextA(s, ready))
  {
    TransitAgrees(s.a, s.b, s.toA, PendingB(s), ready);
    var (a, out) := Transit(s.a, ready);
    assert PendingB(NextA(s, ready)) == PendingB(s) + ToSeq(out);
  }

  /** Queueing the next message: application traffic leaves the pending messages, nothing else does. */
  lemma ArrivePending(s: Session)
    ensures forall m :: m in PendingA(ArriveA(s)) ==> m in PendingA(s)
    ensures forall t :: t != MSG_RG_APP_DATA && t != MSG_NOTIFICATION ==>
              (HasType(PendingA(ArriveA(s)), t) <==> HasType(PendingA(s), t))
  {
  }

  lemma ArriveKeepsInvariant(s: Session)
    requires Invariant(s)
    ensures Invariant(ArriveA(s))
  {
    ArrivePending(s);
  }

  lemma SendKeepsInvariant(s: Session, m: Message)
    requires Invariant(s)
    ensures Invariant(SendA(s, m))
  {
    if IsAppMessage(s.a, m) {
      var out := Numbered(s.a, m);
      assert PendingB(SendA(s, m)) == PendingB(s) + [out];
      HasInConcat(PendingB(s), [out], MSG_CAPABILITY);
      HasInConcat(PendingB(s), [out], MSG_RG_CONNECT);
      HasInOption(Some(out), MSG_CAPABILITY);
      HasInOption(Some(out), MSG_RG_CONNECT);
    }
  }

  lemma NextKeepsInvariant(s: Session, step: Step)
    requires Invariant(s)
    ensures Invariant(Next(s, step))
  {
    match step
    case TransitA(ready) => NextKeepsInvariantA(s, ready);
    case TransitB(ready) => NextKeepsInvariantA(Swap(s), ready);
    case DeliverA => ArriveKeepsInvariant(s);
    case DeliverB => ArriveKeepsInvariant(Swap(s));
    case AppSendA(m) => SendKeepsInvariant(s, m);
    case AppSendB(m) => SendKeepsInvariant(Swap(s), m);
  }

  lemma {:induction false} RunKeepsInvariant(s: Session, steps: seq<Step>)
    requires Invariant(s)
    ensures Invariant(RunSteps(s, steps))
  {
    if steps != [] {
      RunKeepsInvariant(s, steps[..|steps| - 1]);
      NextKeepsInvariant(RunSteps(s, steps[..|steps| - 1]), steps[|steps| - 1]);
    }
  }

  /** No half-open session. In every run of two peers of the same redundancy group, if one is
      OPERATIONAL the other is CONNECTING or OPERATIONAL; and if the other is CONNECTING, the RG
      Connect of the first has not been handled yet. */
  lemma NoHalfOpenSession(rgId: int, nameA: string, nameB: string, steps: seq<Step>)
    ensures var s := RunSteps(Reset(rgId, rgId, nameA, nameB), steps);
            && (s.a.state.Operational? ==>
                  IsLinked(s.b.state) && (s.b.state.Connecting? ==> HasType(PendingB(s), MSG_RG_CONNECT)))
            && (s.b.state.Operational? ==>
                  IsLinked(s.a.state) && (s.a.state.Connecting? ==> HasType(PendingA(s), MSG_RG_CONNECT)))
  {
    RunKeepsInvariant(Reset(rgId, rgId, nameA, nameB), steps);
  }

  /** A step never leaves OPERATIONAL while the socket lives. */
  lemma NextKeepsOperational(s: Session, step: Step)
    requires Invariant(s)
    ensures s.a.state.Operational? ==> Next(s, step).a.state.Operational?
    ensures s.b.state.Operational? ==> Next(s, step).b.state.Operational?
  {
    if step.TransitA? && s.a.inbox != [] {
      assert s.a.inbox[0] in PendingA(s);
    }
    if step.TransitB? && s.b.inbox != [] {
      assert s.b.inbox[0] in PendingB(s);
    }
  }

  /** Once OPERATIONAL, a peer stays so in every continuation of the run. */
  lemma {:induction false} OperationalIsFinal(rgId: int, nameA: string, nameB: string, steps: seq<Step>, n: nat)
    requires n <= |steps|
    ensures var start := Reset(rgId, rgId, nameA, nameB);
            && (RunSteps(start, steps[..n]).a.state.Operational? ==> RunSteps(start, steps).a.state.Operational?)
            && (RunSteps(start, steps[..n]).b.state.Operational? ==> RunSteps(start, steps).b.state.Operational?)
    decreases |steps|
  {
    if n == |steps| {
      assert steps[..n] == steps;
    } else {
      var pre := steps[..|steps| - 1];
      assert pre[..n] == steps[..n];
      OperationalIsFinal(rgId, nameA, nameB, pre, n);
      RunKeepsInvariant(Reset(rgId, rgId, nameA, nameB), pre);
      NextKeepsOperational(RunSteps(Reset(rgId, rgId, nameA, nameB), pre), steps[|steps| - 1]);
    }
  }

  // ---- Peers of different redundancy groups ----

  /** `x` rejects everything `y` says about its group. */
  predicate Rejects(x: Csm, y: Csm, pending: seq<Message>) {
    && x.info.rgId != y.info.rgId
    && (forall m :: m in pending ==> m.msgType == MSG_CAPABILITY || m.rgId == y.info.rgId)
    && (x.info.peerConnect ==> x.info.statusCode == STATUS_UNKNOWN_RG)
    && !x.state.Operational?
  }

  predicate Mismatch(s: Session) {
    Rejects(s.a, s.b, PendingA(s)) && Rejects(s.b, s.a, PendingB(s))
  }

  lemma HeardRejects(i: Info, rgId: int, msg: Option<Message>)
    requires i.rgId != rgId && (i.peerConnect ==> i.statusCode == STATUS_UNKNOWN_RG)
    requires msg.Some? ==> msg.value.msgType == MSG_CAPABILITY || msg.value.rgId == rgId
    ensures var i' := CorrespondAny(i, msg);
            i'.rgId == i.rgId && (i'.peerConnect ==> i'.statusCode == STATUS_UNKNOWN_RG)
  {
  }

  lemma RunRejectsPeer(x: Csm, y: Csm, msg: Option<Message>)
    requires x.info.rgId != y.info.rgId && !x.state.Operational?
    requires x.info.peerConnect ==> x.info.statusCode == STATUS_UNKNOWN_RG
    requires msg.Some? ==> msg.value.msgType == MSG_CAPABILITY || msg.value.rgId == y.info.rgId
    ensures var (x', out) := Run(x, msg);
            && x'.info.rgId == x.info.rgId && !x'.state.Operational?
            && (x'.info.peerConnect ==> x'.info.statusCode == STATUS_UNKNOWN_RG)
            && (out.Some? ==> out.value.msgType == MSG_CAPABILITY || out.value.rgId == x.info.rgId)
  {
    HeardRejects(x.info, y.info.rgId, msg);
    var i := CorrespondAny(x.info, msg);
    assert !NextState(x.state, i).Operational?;
  }

  lemma TransitRejects(x: Csm, y: Csm, toX: seq<Message>, pendingY: seq<Message>, ready: bool)
    requires Rejects(x, y, x.inbox + toX) && Rejects(y, x, pendingY)
    ensures var (x', out) := Transit(x, ready);
            Rejects(x', y, x'.inbox + toX) && Rejects(y, x', pendingY + ToSeq(out))
  {
    TakeHead(x.inbox, toX, 0);
    if x.inbox != [] { assert x.inbox[0] in x.inbox + toX; }
    RunRejectsPeer(x.(inbox := Tail(x.inbox)), y, Head(x.inbox));
  }

  lemma ArriveRejects(s: Session)
    requires Mismatch(s)
    ensures Mismatch(ArriveA(s))
  {
  }

  lemma NextRejectsA(s: Session, ready: bool)
    requires Mismatch(s)
    ensures Mismatch(NextA(s, ready))
  {
    TransitRejects(s.a, s.b, s.toA, PendingB(s), ready);
    var (a, out) := Transit(s.a, ready);
    assert PendingB(NextA(s, ready)) == PendingB(s) + ToSeq(out);
  }

  lemma SendRejects(s: Session, m: Message)
    requires Mismatch(s)
    ensures Mismatch(SendA(s, m))
  {
  }

  lemma {:induction false} RunRejects(s: Session, steps: seq<Step>)
    requires Mismatch(s)
    ensures Mismatch(RunSteps(s, steps))
  {
    if steps != [] {
      var s' := RunSteps(s, steps[..|steps| - 1]);
      RunRejects(s, steps[..|steps| - 1]);
      match steps[|steps| - 1]
      case TransitA(ready) => NextRejectsA(s', ready);
      case TransitB(ready) => NextRejectsA(Swap(s'), ready);
      case DeliverA => ArriveRejects(s');
      case DeliverB => ArriveRejects(Swap(s'));
      case AppSendA(m) => SendRejects(s', m);
      case AppSendB(m) => SendRejects(Swap(s'), m);
    }
  }

  /** Two peers of different redundancy groups never become OPERATIONAL, in any run. */
  lemma DifferentGroupsNeverOperational(rgA: int, rgB: int, nameA: string, nameB: string, steps: seq<Step>)
    requires rgA != rgB
    ensures var s := RunSteps(Reset(rgA, rgB, nameA, nameB), steps);
            !s.a.state.Operational? && !s.b.state.Operational?
  {
    RunRejects(Reset(rgA, rgB, nameA, nameB), steps);
  }
}
