/**
 What becomes of the messages of two ICCP peers in every run: application data arrive complete and in
 order, the log of sent messages is a ring of the last 128, NAKs find the sender of what they reject, and
 a NAK for an unknown redundancy group says which one.
 */
module IccpDelivery {
  import opened Wrappers
  import opened IccpCsm
  import opened IccpSession

  // ---- Application data ----

  /** The application data among the messages. */
  function Data(q: seq<Message>): seq<Message> {
    if q == [] then [] else Data(q[..|q| - 1]) + if q[|q| - 1].msgType == MSG_RG_APP_DATA then [q[|q| - 1]] else []
  }

  lemma {:induction false} DataConcat(p: seq<Message>, q: seq<Message>)
    ensures Data(p + q) == Data(p) + Data(q)
  {
    if q == [] {
      assert p + q == p;
    } else {
      assert (p + q)[..|p + q| - 1] == p + q[..|q| - 1];
      DataConcat(p, q[..|q| - 1]);
    }
  }

  lemma DataOfOne(m: Message)
    ensures Data([m]) == if m.msgType == MSG_RG_APP_DATA then [m] else []
  {
    assert [m][..0] == [];
  }

  /** What the application of A has got or will get, in order. */
  function ForA(s: Session): seq<Message> { Data(s.a.appInbox) + Data(s.toA) }

  function ForB(s: Session): seq<Message> { ForA(Swap(s)) }

  /** What a message that the application sends adds to the application data on their way. */
  function NewData(c: Csm, m: Message): seq<Message> {
    if m.msgType == MSG_RG_APP_DATA && m.rgId == c.info.rgId then [m.(msgId := c.log.nextMsgId)] else []
  }

  function DataFromA(s: Session, step: Step): seq<Message> { if step.AppSendA? then NewData(s.a, step.m) else [] }

  function DataFromB(s: Session, step: Step): seq<Message> { if step.AppSendB? then NewData(s.b, step.m) else [] }

  lemma TransitData(s: Session, ready: bool)
    ensures ForA(NextA(s, ready)) == ForA(s) && ForB(NextA(s, ready)) == ForB(s)
  {
    var (a, out) := Transit(s.a, ready);
    DataConcat(s.toB, ToSeq(out));
    NoDataSent(s.a, ready);
    assert a.appInbox == s.a.appInbox;
  }

  lemma NoDataSent(c: Csm, ready: bool)
    ensures Data(ToSeq(Transit(c, ready).1)) == [] && Transit(c, ready).0.appInbox == c.appInbox
  {
    var out := Transit(c, ready).1;
    if out.Some? { DataOfOne(out.value); }
  }

  lemma EnqueueData(c: Csm, m: Message)
    ensures Data(Enqueue(c, m).appInbox) == Data(c.appInbox) + if m.msgType == MSG_RG_APP_DATA then [m] else []
  {
    DataConcat(c.appInbox, [m]);
    DataOfOne(m);
  }

  lemma FirstData(m: Message, rest: seq<Message>)
    ensures Data([m] + rest) == (if m.msgType == MSG_RG_APP_DATA then [m] else []) + Data(rest)
  {
    DataConcat([m], rest);
    DataOfOne(m);
  }

  lemma ArriveData(s: Session)
    ensures ForA(ArriveA(s)) == ForA(s) && ForB(ArriveA(s)) == ForB(s)
  {
    if s.toA != [] {
      var m, rest := s.toA[0], s.toA[1..];
      assert s.toA == [m] + rest;
      FirstData(m, rest);
      EnqueueData(s.a, m);
      assert ArriveA(s).a == Enqueue(s.a, m) && ArriveA(s).toA == rest;
    }
  }

  lemma SendData(s: Session, m: Message)
    ensures ForA(SendA(s, m)) == ForA(s) && ForB(SendA(s, m)) == ForB(s) + NewData(s.a, m)
  {
    if IsAppMessage(s.a, m) {
      DataConcat(s.toB, [Numbered(s.a, m)]);
      NumberedData(s.a, m);
    }
  }

  lemma NumberedData(c: Csm, m: Message)
    requires IsAppMessage(c, m)
    ensures Data([Numbered(c, m)]) == NewData(c, m)
  {
    DataOfOne(Numbered(c, m));
  }

  lemma StepData(s: Session, step: Step)
    ensures ForA(Next(s, step)) == ForA(s) + DataFromB(s, step)
    ensures ForB(Next(s, step)) == ForB(s) + DataFromA(s, step)
  {
    match step
    case TransitA(ready) => TransitData(s, ready);
    case TransitB(ready) => TransitData(Swap(s), ready);
    case DeliverA => ArriveData(s);
    case DeliverB => ArriveData(Swap(s));
    case AppSendA(m) => SendData(s, m);
    case AppSendB(m) => SendData(Swap(s), m);
  }

  /** The application data that A has sent in a run, in order. */
  function AllFromA(s: Session, steps: seq<Step>): seq<Message> {
    if steps == [] then []
    else
      var pre := steps[..|steps| - 1];
      AllFromA(s, pre) + DataFromA(RunSteps(s, pre), steps[|steps| - 1])
  }

  function AllFromB(s: Session, steps: seq<Step>): seq<Message> {
    if steps == [] then []
    else
      var pre := steps[..|steps| - 1];
      AllFromB(s, pre) + DataFromB(RunSteps(s, pre), steps[|steps| - 1])
  }

  /** In every run the application data that a peer has sent, in order, are those in the application queue of
      the other, followed by those on their way to it. */
  lemma {:induction false} DataArrive(rgA: int, rgB: int, nameA: string, nameB: string, steps: seq<Step>)
    ensures var start := Reset(rgA, rgB, nameA, nameB);
            var s := RunSteps(start, steps);
            && Data(s.a.appInbox) + Data(s.toA) == AllFromB(start, steps)
            && Data(s.b.appInbox) + Data(s.toB) == AllFromA(start, steps)
  {
    if steps != [] {
      var pre := steps[..|steps| - 1];
      DataArrive(rgA, rgB, nameA, nameB, pre);
      StepData(RunSteps(Reset(rgA, rgB, nameA, nameB), pre), steps[|steps| - 1]);
    }
  }

  // ---- The log of sent messages ----

  /** What A sends in one step. */
  function Outgoing(s: Session, step: Step): seq<Message> {
    match step
    case TransitA(ready) => ToSeq(Transit(s.a, ready).1)
    case AppSendA(m) => if IsAppMessage(s.a, m) then [Numbered(s.a, m)] else []
    case _ => []
  }

  function SentByA(s: Session, steps: seq<Step>): seq<Message> {
    if steps == [] then []
    else
      var pre := steps[..|steps| - 1];
      SentByA(s, pre) + Outgoing(RunSteps(s, pre), steps[|steps| - 1])
  }

  /** Message `i` is one of the last 128 that were sent. */
  predicate IsRecent(sent: seq<Message>, i: int) { 0 <= i < |sent| <= i + 128 }

  /** The messages are numbered from 1 on, and the last 128 are in the log, message `i` at `i` modulo 128. */
  ghost predicate IsRing(log: Log, sent: seq<Message>) {
    && |log.entries| == 128 && log.end == |sent| % 128 && log.nextMsgId == (1 + |sent|) % 0x1_0000_0000
    && (forall i :: 0 <= i < |sent| ==> sent[i].msgId == (1 + i) % 0x1_0000_0000)
    && (forall i :: IsRecent(sent, i) ==> log.entries[i % 128] == LogEntry(sent[i].msgId, sent[i].msgType))
    && (forall j :: |sent| <= j < 128 ==> log.entries[j] == LogEntry(0, 0))
  }

  lemma RingIndex(i: int, n: int)
    requires 0 <= i < n < i + 128
    ensures i % 128 != n % 128
  {
  }

  lemma RingNext(n: nat)
    ensures (n + 1) % 128 == (if n % 128 + 1 >= 128 then 0 else n % 128 + 1)
    ensures (1 + (n + 1)) % 0x1_0000_0000 == ((1 + n) % 0x1_0000_0000 + 1) % 0x1_0000_0000
  {
  }

  lemma LoggedRing(log: Log, sent: seq<Message>, m: Message)
    requires IsRing(log, sent) && m.msgId == log.nextMsgId
    ensures IsRing(Logged(log, Some(m)), sent + [m])
  {
    var n, after := |sent|, sent + [m];
    var log' := Logged(log, Some(m));
    RingNext(n);
    forall i | IsRecent(after, i)
      ensures log'.entries[i % 128] == LogEntry(after[i].msgId, after[i].msgType)
    {
      if i < n {
        RingIndex(i, n);
        assert IsRecent(sent, i);
      }
    }
  }

  lemma StepRing(s: Session, step: Step, sent: seq<Message>)
    requires IsRing(s.a.log, sent)
    ensures IsRing(Next(s, step).a.log, sent + Outgoing(s, step))
  {
    if Outgoing(s, step) != [] {
      LoggedRing(s.a.log, sent, Outgoing(s, step)[0]);
      OutgoingLogged(s, step);
    } else {
      assert sent + Outgoing(s, step) == sent;
      NothingLogged(s, step);
    }
  }

  lemma OutgoingLogged(s: Session, step: Step)
    requires Outgoing(s, step) != []
    ensures |Outgoing(s, step)| == 1 && Outgoing(s, step)[0].msgId == s.a.log.nextMsgId
    ensures Next(s, step).a.log == Logged(s.a.log, Some(Outgoing(s, step)[0]))
  {
  }

  lemma NothingLogged(s: Session, step: Step)
    requires Outgoing(s, step) == []
    ensures Next(s, step).a.log == s.a.log
  {
  }

  /** In every run the messages that a peer sends are numbered consecutively, and its log holds the last 128. */
  lemma {:induction false} LogIsRing(rgA: int, rgB: int, nameA: string, nameB: string, steps: seq<Step>)
    ensures var start := Reset(rgA, rgB, nameA, nameB);
            IsRing(RunSteps(start, steps).a.log, SentByA(start, steps))
  {
    if steps != [] {
      var pre := steps[..|steps| - 1];
      LogIsRing(rgA, rgB, nameA, nameB, pre);
      StepRing(RunSteps(Reset(rgA, rgB, nameA, nameB), pre), steps[|steps| - 1], SentByA(Reset(rgA, rgB, nameA, nameB), pre));
    }
  }

  // ---- Where a NAK goes ----

  lemma {:induction false} LoggedFirst(entries: seq<LogEntry>, i: nat, id: int)
    requires i < |entries| && entries[i].msgId == id && forall j :: 0 <= j < i ==> entries[j].msgId != id
    ensures LoggedType(entries, id) == Some(entries[i].msgType)
  {
    if i > 0 {
      LoggedFirst(entries[1..], i - 1, id);
    }
  }

  /** The last message that was logged at place `j`. */
  lemma LastAt(n: nat, j: nat) returns (k: nat)
    requires j < 128 && j < n
    ensures k % 128 == j && k < n <= k + 128
  {
    var q := (n - 1 - j) / 128;
    k := j + 128 * q;
  }

  lemma RingIds(log: Log, sent: seq<Message>, i: int, j: nat)
    requires IsRing(log, sent) && IsRecent(sent, i) && j < 128 && log.entries[j].msgId == sent[i].msgId
    ensures j == i % 128
  {
    var n := |sent|;
    if j < n {
      var k := LastAt(n, j);
      assert IsRecent(sent, k);
      SameNumber(i, k);
    } else {
      SmallNumber(i);
    }
  }

  lemma SameNumber(i: int, k: int)
    requires 0 <= i && 0 <= k && (1 + i) % 0x1_0000_0000 == (1 + k) % 0x1_0000_0000 && i - k < 128 && k - i < 128
    ensures i == k
  {
  }

  lemma SmallNumber(i: int)
    requires 0 <= i < 128
    ensures (1 + i) % 0x1_0000_0000 != 0
  {
  }

  /** In every run, a NAK that rejects one of the last 128 messages of the peer it reaches goes to the application
      if that was application data, and to the connection state machine if not. */
  lemma NakFindsSender(rgA: int, rgB: int, nameA: string, nameB: string, steps: seq<Step>, nak: Message, i: int)
    requires nak.msgType == MSG_NOTIFICATION && IsRecent(SentByA(Reset(rgA, rgB, nameA, nameB), steps), i)
    requires nak.rejectedMsgId == SentByA(Reset(rgA, rgB, nameA, nameB), steps)[i].msgId
    ensures var start := Reset(rgA, rgB, nameA, nameB);
            var a := RunSteps(start, steps).a;
            Enqueue(a, nak) ==
              if SentByA(start, steps)[i].msgType == MSG_RG_APP_DATA then a.(appInbox := a.appInbox + [nak])
              else a.(inbox := a.inbox + [nak])
  {
    var sent := SentByA(Reset(rgA, rgB, nameA, nameB), steps);
    var log := RunSteps(Reset(rgA, rgB, nameA, nameB), steps).a.log;
    LogIsRing(rgA, rgB, nameA, nameB, steps);
    forall j | 0 <= j < i % 128
      ensures log.entries[j].msgId != sent[i].msgId
    {
      if log.entries[j].msgId == sent[i].msgId { RingIds(log, sent, i, j); }
    }
    LoggedFirst(log.entries, i % 128, sent[i].msgId);
  }

  lemma {:induction false} NotLogged(entries: seq<LogEntry>, id: int)
    requires forall j :: 0 <= j < |entries| ==> entries[j].msgId != id
    ensures LoggedType(entries, id) == None
  {
    if entries != [] {
      NotLogged(entries[1..], id);
    }
  }

  /** Any other NAK goes to the connection state machine. */
  lemma OtherNak(c: Csm, nak: Message)
    requires nak.msgType == MSG_NOTIFICATION
    requires forall j :: 0 <= j < |c.log.entries| ==> c.log.entries[j].msgId != nak.rejectedMsgId
    ensures Enqueue(c, nak) == c.(inbox := c.inbox + [nak])
  {
    NotLogged(c.log.entries, nak.rejectedMsgId);
  }

  // ---- What a NAK says ----

  /** Peer `x` of group `own` has nothing to complain about, or about the group `other`. */
  predicate Complains(x: Csm, own: int, other: int) {
    && x.info.rgId == own
    && (x.info.statusCode == 0 || (x.info.statusCode == STATUS_UNKNOWN_RG && x.info.rejectedMsgId == other))
  }

  predicate ComesFromGroup(q: seq<Message>, rg: int) {
    forall m :: m in q ==> m.msgType == MSG_CAPABILITY || m.rgId == rg
  }

  predicate Complaints(s: Session, rgA: int, rgB: int) {
    && Complains(s.a, rgA, rgB) && Complains(s.b, rgB, rgA)
    && ComesFromGroup(PendingA(s), rgB) && ComesFromGroup(PendingB(s), rgA)
  }

  lemma HeardComplains(i: Info, own: int, other: int, msg: Option<Message>)
    requires i.rgId == own && (i.statusCode == 0 || (i.statusCode == STATUS_UNKNOWN_RG && i.rejectedMsgId == other))
    requires msg.Some? ==> msg.value.msgType == MSG_CAPABILITY || msg.value.rgId == other
    ensures var i' := CorrespondAny(i, msg);
            i'.rgId == own && (i'.statusCode == 0 || (i'.statusCode == STATUS_UNKNOWN_RG && i'.rejectedMsgId == other))
  {
  }

  lemma SentFromGroup(state: ConnectionState, i: Info, id: int)
    ensures var out := Prepare(state, i, id); out.Some? ==> out.value.msgType == MSG_CAPABILITY || out.value.rgId == i.rgId
  {
  }

  lemma EnterKeeps(state: ConnectionState, i: Info)
    ensures var i' := Enter(state, i);
            && i'.rgId == i.rgId && i'.statusCode == i.statusCode && i'.rejectedMsgId == i.rejectedMsgId
            && i'.senderName == i.senderName && (i.senderCapability ==> i'.senderCapability)
  {
  }

  lemma RunComplains(x: Csm, own: int, other: int, msg: Option<Message>)
    requires Complains(x, own, other) && (msg.Some? ==> msg.value.msgType == MSG_CAPABILITY || msg.value.rgId == other)
    ensures var (x', out) := Run(x, msg);
            && Complains(x', own, other)
            && (out.Some? ==> out.value.msgType == MSG_CAPABILITY || out.value.rgId == own)
  {
    var i := CorrespondAny(x.info, msg);
    HeardComplains(x.info, own, other, msg);
    SentFromGroup(x.state, i, x.log.nextMsgId);
    EnterKeeps(NextState(x.state, i), i);
  }

  lemma TransitComplains(s: Session, rgA: int, rgB: int, ready: bool)
    requires Complaints(s, rgA, rgB)
    ensures Complaints(NextA(s, ready), rgA, rgB)
  {
    var (a, out) := Transit(s.a, ready);
    TakeHead(s.a.inbox, s.toA, 0);
    if s.a.inbox != [] { assert s.a.inbox[0] in PendingA(s); }
    RunComplains(s.a.(inbox := Tail(s.a.inbox)), rgA, rgB, Head(s.a.inbox));
    assert PendingB(NextA(s, ready)) == PendingB(s) + ToSeq(out);
  }

  lemma ArriveComplains(s: Session, rgA: int, rgB: int)
    requires Complaints(s, rgA, rgB)
    ensures Complaints(ArriveA(s), rgA, rgB)
  {
    ArrivePending(s);
  }

  lemma SendComplains(s: Session, rgA: int, rgB: int, m: Message)
    requires Complaints(s, rgA, rgB)
    ensures Complaints(SendA(s, m), rgA, rgB)
  {
    if IsAppMessage(s.a, m) {
      assert PendingB(SendA(s, m)) == PendingB(s) + [Numbered(s.a, m)];
    }
  }

  lemma SwapComplains(s: Session, rgA: int, rgB: int)
    ensures Complaints(Swap(s), rgB, rgA) == Complaints(s, rgA, rgB)
  {
  }

  lemma {:induction false} RunComplaints(s: Session, rgA: int, rgB: int, steps: seq<Step>)
    requires Complaints(s, rgA, rgB)
    ensures Complaints(RunSteps(s, steps), rgA, rgB)
  {
    if steps != [] {
      var s' := RunSteps(s, steps[..|steps| - 1]);
      RunComplaints(s, rgA, rgB, steps[..|steps| - 1]);
      SwapComplains(s', rgA, rgB);
      StepComplains(s', rgA, rgB, steps[|steps| - 1]);
    }
  }

  lemma StepComplains(s: Session, rgA: int, rgB: int, step: Step)
    requires Complaints(s, rgA, rgB)
    ensures Complaints(Next(s, step), rgA, rgB)
  {
    SwapComplains(s, rgA, rgB);
    match step
    case TransitA(ready) => TransitComplains(s, rgA, rgB, ready);
    case DeliverA => ArriveComplains(s, rgA, rgB);
    case AppSendA(m) => SendComplains(s, rgA, rgB, m);
    case TransitB(ready) =>
      TransitComplains(Swap(s), rgB, rgA, ready);
      SwapComplains(NextA(Swap(s), ready), rgB, rgA);
    case DeliverB =>
      ArriveComplains(Swap(s), rgB, rgA);
      SwapComplains(ArriveA(Swap(s)), rgB, rgA);
    case AppSendB(m) =>
      SendComplains(Swap(s), rgB, rgA, m);
      SwapComplains(SendA(Swap(s), m), rgB, rgA);
  }

  /** In every run, a NAK of the connection state machine is sent with the group of its sender, for an unknown
      redundancy group, and names the group of the other peer. */
  lemma NakNamesGroup(rgA: int, rgB: int, nameA: string, nameB: string, steps: seq<Step>, ready: bool)
    ensures var out := Transit(RunSteps(Reset(rgA, rgB, nameA, nameB), steps).a, ready).1;
            IsOfType(out, MSG_NOTIFICATION) ==>
              out.value.rgId == rgA && out.value.statusCode == 0x00010001 && out.value.rejectedMsgId == rgB
  {
    var s := RunSteps(Reset(rgA, rgB, nameA, nameB), steps);
    RunComplaints(Reset(rgA, rgB, nameA, nameB), rgA, rgB, steps);
    if s.a.inbox != [] { assert s.a.inbox[0] in PendingA(s); }
    RunComplains(s.a.(inbox := Tail(s.a.inbox)), rgA, rgB, Head(s.a.inbox));
    NakOfRun(s.a.(inbox := Tail(s.a.inbox)), rgA, rgB, Head(s.a.inbox));
  }

  lemma NakOfRun(x: Csm, own: int, other: int, msg: Option<Message>)
    requires Complains(x, own, other) && (msg.Some? ==> msg.value.msgType == MSG_CAPABILITY || msg.value.rgId == other)
    ensures var out := Run(x, msg).1;
            IsOfType(out, MSG_NOTIFICATION) ==>
              out.value.rgId == own && out.value.statusCode == STATUS_UNKNOWN_RG && out.value.rejectedMsgId == other
  {
  }

  // ---- Messages that the peers do not send ----

  predicate AllKnown(q: seq<Message>) {
    forall m :: m in q ==> m.msgType in {0x0202, 0x0700, 0x0701, 0x0702, 0x0703}
  }

  predicate NothingUnknown(s: Session) {
    s.a.unknownIn == 0 && s.b.unknownIn == 0 && AllKnown(PendingA(s)) && AllKnown(PendingB(s))
  }

  lemma TransitKnown(s: Session, ready: bool)
    requires NothingUnknown(s)
    ensures NothingUnknown(NextA(s, ready))
  {
    var (a, out) := Transit(s.a, ready);
    TakeHead(s.a.inbox, s.toA, 0);
    if s.a.inbox != [] { assert s.a.inbox[0] in PendingA(s); }
    assert PendingB(NextA(s, ready)) == PendingB(s) + ToSeq(out);
  }

  lemma SendKnown(s: Session, m: Message)
    requires NothingUnknown(s)
    ensures NothingUnknown(SendA(s, m))
  {
    if IsAppMessage(s.a, m) {
      assert PendingB(SendA(s, m)) == PendingB(s) + [Numbered(s.a, m)];
    }
  }

  lemma StepKnown(s: Session, step: Step)
    requires NothingUnknown(s)
    ensures NothingUnknown(Next(s, step))
  {
    match step
    case TransitA(ready) => TransitKnown(s, ready);
    case TransitB(ready) => TransitKnown(Swap(s), ready);
    case DeliverA => ArrivePending(s);
    case DeliverB => ArrivePending(Swap(s));
    case AppSendA(m) => SendKnown(s, m);
    case AppSendB(m) => SendKnown(Swap(s), m);
  }

  /** In no run does a peer receive a message of an unknown type. */
  lemma {:induction false} NoUnknownMessages(rgA: int, rgB: int, nameA: string, nameB: string, steps: seq<Step>)
    ensures NothingUnknown(RunSteps(Reset(rgA, rgB, nameA, nameB), steps))
  {
    if steps != [] {
      NoUnknownMessages(rgA, rgB, nameA, nameB, steps[..|steps| - 1]);
      StepKnown(RunSteps(Reset(rgA, rgB, nameA, nameB), steps[..|steps| - 1]), steps[|steps| - 1]);
    }
  }

  /** The message says that the redundancy group was removed. */
  predicate SaysRemoved(m: Message) {
    && m.msgType == 0x0701 && m.uBit == 0 && m.fBit == 0 && m.tlvType == 0x0004 && m.tlvLen == 4
    && m.statusCode == 0x00010010
  }

  /** OPERATIONAL is left when the peer removes its redundancy group: the peer answers with a disconnect, and with its
      next transit connects again. Any other disconnect of the group changes nothing. */
  lemma RemovalReconnects(c: Csm, m: Message, ready: bool)
    requires c.state.Operational? && c.connected && c.info.statusCode == 0 && c.info.senderConnect && c.info.peerConnect
    requires c.inbox == [m] && m.msgType == 0x0701 && m.rgId == c.info.rgId
    ensures var (c1, out1) := Transit(c, ready);
            var (c2, out2) := Transit(c1, ready);
            if SaysRemoved(m) then
              && c1.state.CapRec? && out1 == Some(DisconnectMessage(c.log.nextMsgId, c.info.rgId, 0))
              && c2.state.Connecting? && out2 == Some(ConnectMessage(c1.log.nextMsgId, c.info.rgId, c.info.senderName))
            else c1.state.Operational? && out1.None?
  {
  }

  /** A peer that has lost its socket falls back to NONEXISTENT and sends nothing. */
  lemma SocketLost(c: Csm, ready: bool)
    requires !c.connected
    ensures var (c', out) := Transit(c, ready);
            out.None? && (c'.state.Nonexistent? || (ready && c.state.Nonexistent? && c'.state.Initialized?))
  {
  }

  // ---- What the messages say, and what a peer hears ----

  predicate IsCapability(m: Message) {
    && m.msgType == 0x0202 && m.uBit == 1 && m.fBit == 0 && m.tlvType == 0x0700 && m.tlvLen == 4
    && m.sBit == 1 && m.majorVersion == 1 && m.minorVersion == 0
  }

  predicate IsConnect(m: Message) { m.msgType == 0x0700 && m.uBit == 0 && m.fBit == 0 && m.tlvType == 0x0001 }

  /** Capabilities are complete, and connects give the group and the name of the sender. */
  predicate SaysWho(m: Message, rg: int, name: string) {
    && (m.msgType == 0x0202 ==> IsCapability(m))
    && (m.msgType == 0x0700 ==> IsConnect(m) && m.rgId == rg && m.senderName == name && m.tlvLen == |name|)
  }

  predicate Introduces(x: Csm, rg: int, name: string, sent: seq<Message>) {
    && x.info.rgId == rg && x.info.senderName == name && (!x.state.Nonexistent? ==> x.info.senderCapability)
    && (forall m :: m in sent ==> SaysWho(m, rg, name))
  }

  lemma HeardKeeps(i: Info, msg: Option<Message>)
    ensures var i' := CorrespondAny(i, msg);
            i'.rgId == i.rgId && i'.senderName == i.senderName && i'.senderCapability == i.senderCapability
  {
  }

  lemma PreparedSaysWho(state: ConnectionState, i: Info, id: int)
    requires i.senderCapability
    ensures var out := Prepare(state, i, id); out.Some? ==> SaysWho(out.value, i.rgId, i.senderName)
  {
  }

  lemma RunIntroduces(x: Csm, rg: int, name: string, msg: Option<Message>)
    requires Introduces(x, rg, name, []) && !x.state.Nonexistent?
    ensures var (x', out) := Run(x, msg); Introduces(x', rg, name, ToSeq(out))
  {
    var i := CorrespondAny(x.info, msg);
    HeardKeeps(x.info, msg);
    PreparedSaysWho(x.state, i, x.log.nextMsgId);
    EnterKeeps(NextState(x.state, i), i);
  }

  lemma StepIntroduces(s: Session, rg: int, name: string, step: Step)
    requires Introduces(s.a, rg, name, s.toB)
    ensures Introduces(Next(s, step).a, rg, name, Next(s, step).toB)
  {
    if step.TransitA? && !s.a.state.Nonexistent? {
      RunIntroduces(s.a.(inbox := Tail(s.a.inbox)), rg, name, Head(s.a.inbox));
    }
  }

  /** In every run, what a peer has on its way says who it is. */
  lemma {:induction false} MessagesSayWho(rgA: int, rgB: int, nameA: string, nameB: string, steps: seq<Step>)
    ensures var s := RunSteps(Reset(rgA, rgB, nameA, nameB), steps); Introduces(s.a, rgA, nameA, s.toB)
  {
    if steps != [] {
      MessagesSayWho(rgA, rgB, nameA, nameB, steps[..|steps| - 1]);
      StepIntroduces(RunSteps(Reset(rgA, rgB, nameA, nameB), steps[..|steps| - 1]), rgA, nameA, steps[|steps| - 1]);
    }
  }

  /** What a peer knows after a message: complete capabilities and connects count, a removal takes both connects back,
      and any message but a capability is checked for its group. */
  lemma HeardExactly(i: Info, m: Message)
    ensures var i' := Correspond(i, m);
            && (i'.peerCapability <==> i.peerCapability || IsCapability(m))
            && (i'.peerConnect <==> (i.peerConnect || IsConnect(m)) && !SaysRemoved(m))
            && (i'.senderConnect <==> i.senderConnect && !SaysRemoved(m))
            && i'.senderCapability == i.senderCapability && i'.rgId == i.rgId && i'.senderName == i.senderName
            && (m.msgType != 0x0202 && m.rgId != i.rgId ==> i'.statusCode == 0x00010001 && i'.rejectedMsgId == m.rgId)
            && (m.msgType != 0x0202 && m.rgId == i.rgId && i.statusCode == 0x00010001 ==>
                  i'.statusCode == 0 && i'.rejectedMsgId == 0)
            && (m.msgType == 0x0202 || (m.rgId == i.rgId && i.statusCode != 0x00010001) ==>
                  i'.statusCode == i.statusCode && i'.rejectedMsgId == i.rejectedMsgId)
  {
  }

  /** A transit of a live peer counts the message that it takes if and only if its type is unknown. */
  lemma UnknownCounted(c: Csm, m: Message, rest: seq<Message>, ready: bool)
    requires c.connected && !c.state.Nonexistent? && c.inbox == [m] + rest
    ensures Transit(c, ready).0.unknownIn ==
      c.unknownIn + if m.msgType in {0x0202, 0x0700, 0x0701, 0x0702, 0x0703} then 0 else 1
  {
    assert Head(c.inbox) == Some(m);
  }
}
