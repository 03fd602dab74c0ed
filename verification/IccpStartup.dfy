/**
 When two ICCP peers come up from reset: if and only if both leave NONEXISTENT and neither takes the
 other's capability message from its queue before that.
 */
module IccpStartup {
  import opened IccpCsm
  import opened IccpSession
  import opened IccpProgress

  // ---- A capability is sent only once ----

  function Capabilities(q: seq<Message>): nat {
    if q == [] then 0 else (if q[0].msgType == MSG_CAPABILITY then 1 else 0) + Capabilities(q[1..])
  }

  lemma {:induction false} CapabilitiesConcat(p: seq<Message>, q: seq<Message>)
    ensures Capabilities(p + q) == Capabilities(p) + Capabilities(q)
  {
    if p == [] {
      assert p + q == q;
    } else {
      assert (p + q)[1..] == p[1..] + q;
      CapabilitiesConcat(p[1..], q);
    }
  }

  lemma {:induction false} CapabilitiesExactly(q: seq<Message>)
    ensures Capabilities(q) > 0 <==> HasType(q, MSG_CAPABILITY)
  {
    if q != [] {
      CapabilitiesExactly(q[1..]);
      assert forall m :: m in q <==> m == q[0] || m in q[1..];
    }
  }

  predicate OneEach(s: Session) {
    Capabilities(PendingA(s)) <= 1 && Capabilities(PendingB(s)) <= 1
  }

  /** Only a peer that has not spoken yet sends its capability. */
  lemma SendsOnce(x: Csm, ready: bool)
    requires HasSpoken(x.state) || x.state.Nonexistent?
    ensures !IsOfType(Transit(x, ready).1, MSG_CAPABILITY)
  {
  }

  lemma TransitOneEach(s: Session, ready: bool)
    requires Invariant(s) && OneEach(s)
    ensures OneEach(NextA(s, ready))
  {
    var (a, out) := Transit(s.a, ready);
    TakeHead(s.a.inbox, s.toA, MSG_CAPABILITY);
    CapabilitiesConcat(ToSeq(Head(s.a.inbox)), Tail(s.a.inbox) + s.toA);
    assert PendingB(NextA(s, ready)) == PendingB(s) + ToSeq(out);
    CapabilitiesConcat(PendingB(s), ToSeq(out));
    CapabilitiesExactly(PendingB(s));
    if HasSpoken(s.a.state) || s.a.state.Nonexistent? {
      SendsOnce(s.a, ready);
    }
    UpStaysA(s, ready);
  }

  lemma UpStaysA(s: Session, ready: bool)
    requires Invariant(s)
    ensures !s.a.state.Nonexistent? ==> !NextA(s, ready).a.state.Nonexistent?
    ensures NextA(s, ready).a.inbox == Tail(s.a.inbox)
  {
  }

  lemma ArriveOneEach(s: Session)
    requires OneEach(s)
    ensures OneEach(ArriveA(s))
  {
    if s.toA != [] {
      var m, rest := s.toA[0], s.toA[1..];
      assert s.toA == [m] + rest;
      assert s.a.inbox + s.toA == s.a.inbox + [m] + rest;
      CapabilitiesConcat(s.a.inbox + [m], rest);
      CapabilitiesConcat(s.a.inbox, [m]);
      CapabilitiesConcat(s.a.inbox, rest);
    }
  }

  lemma SendOneEach(s: Session, m: Message)
    requires OneEach(s)
    ensures OneEach(SendA(s, m))
  {
    if IsAppMessage(s.a, m) {
      assert PendingB(SendA(s, m)) == PendingB(s) + [Numbered(s.a, m)];
      CapabilitiesConcat(PendingB(s), [Numbered(s.a, m)]);
    }
  }

  lemma StepOneEach(s: Session, step: Step)
    requires Invariant(s) && OneEach(s)
    ensures OneEach(Next(s, step))
  {
    match step
    case TransitA(ready) => TransitOneEach(s, ready);
    case TransitB(ready) => TransitOneEach(Swap(s), ready);
    case DeliverA => ArriveOneEach(s);
    case DeliverB => ArriveOneEach(Swap(s));
    case AppSendA(m) => SendOneEach(s, m);
    case AppSendB(m) => SendOneEach(Swap(s), m);
  }

  // ---- What loses a capability ----

  /** A peer in NONEXISTENT that would take a capability message next, and drop it. */
  predicate WouldDrop(x: Csm) {
    x.state.Nonexistent? && IsOfType(Head(x.inbox), MSG_CAPABILITY)
  }

  predicate Drops(s: Session, step: Step) {
    (step.TransitA? && WouldDrop(s.a)) || (step.TransitB? && WouldDrop(s.b))
  }

  lemma RunKeeps(s: Session, ready: bool)
    requires Invariant(s) && CapabilitiesKept(s) && !s.a.state.Nonexistent?
    ensures CapabilitiesKept(NextA(s, ready))
  {
    var (a, out) := Transit(s.a, ready);
    var rest := Tail(s.a.inbox) + s.toA;
    TakeHead(s.a.inbox, s.toA, MSG_CAPABILITY);
    TakeHead(s.a.inbox, s.toA, MSG_RG_CONNECT);
    if s.a.inbox != [] { assert s.a.inbox[0] in PendingA(s); }
    RunWork(s.a.(inbox := Tail(s.a.inbox)), s.b, Head(s.a.inbox),
            HasType(rest, MSG_CAPABILITY), HasType(rest, MSG_RG_CONNECT));
    assert PendingB(NextA(s, ready)) == PendingB(s) + ToSeq(out);
    HasInConcat(PendingB(s), ToSeq(out), MSG_CAPABILITY);
    HasInOption(out, MSG_CAPABILITY);
  }

  lemma StartKeepsExactly(s: Session, ready: bool)
    requires Invariant(s) && OneEach(s) && CapabilitiesKept(s) && s.a.state.Nonexistent?
    ensures CapabilitiesKept(NextA(s, ready)) <==> !WouldDrop(s.a)
  {
    var rest := Tail(s.a.inbox) + s.toA;
    TakeHead(s.a.inbox, s.toA, MSG_CAPABILITY);
    CapabilitiesConcat(ToSeq(Head(s.a.inbox)), rest);
    CapabilitiesExactly(rest);
    assert PendingA(NextA(s, ready)) == rest;
  }

  /** A transit keeps both capabilities if and only if it does not drop one. */
  lemma TransitKeeps(s: Session, ready: bool)
    requires Invariant(s) && OneEach(s) && CapabilitiesKept(s)
    ensures CapabilitiesKept(NextA(s, ready)) <==> !WouldDrop(s.a)
  {
    if s.a.state.Nonexistent? {
      StartKeepsExactly(s, ready);
    } else {
      RunKeeps(s, ready);
    }
  }

  lemma SendKeeps(s: Session, m: Message)
    requires CapabilitiesKept(s)
    ensures CapabilitiesKept(SendA(s, m))
  {
    if IsAppMessage(s.a, m) {
      assert PendingB(SendA(s, m)) == PendingB(s) + [Numbered(s.a, m)];
      HasInConcat(PendingB(s), [Numbered(s.a, m)], MSG_CAPABILITY);
    }
  }

  lemma StepKeepsExactly(s: Session, step: Step)
    requires Invariant(s) && OneEach(s) && CapabilitiesKept(s)
    ensures CapabilitiesKept(Next(s, step)) <==> !Drops(s, step)
  {
    match step
    case TransitA(ready) => TransitKeeps(s, ready);
    case TransitB(ready) => TransitKeeps(Swap(s), ready);
    case DeliverA => ArrivePending(s);
    case DeliverB => ArrivePending(Swap(s));
    case AppSendA(m) => SendKeeps(s, m);
    case AppSendB(m) => SendKeeps(Swap(s), m);
  }

  // ---- Runs of a schedule ----

  /** A state before any capability was lost. */
  predicate Fresh(s: Session) {
    Invariant(s) && OneEach(s) && CapabilitiesKept(s)
  }

  predicate DropsAt(s: Session, sched: Schedule, n: nat) {
    Drops(StateAt(s, sched, n), sched(n))
  }

  lemma KeptNext(s: Session, sched: Schedule, n: nat)
    requires Fresh(StateAt(s, sched, n))
    ensures CapabilitiesKept(StateAt(s, sched, n + 1)) <==> !DropsAt(s, sched, n)
    ensures Invariant(StateAt(s, sched, n + 1)) && OneEach(StateAt(s, sched, n + 1))
  {
    NextKeepsInvariant(StateAt(s, sched, n), sched(n));
    StepOneEach(StateAt(s, sched, n), sched(n));
    StepKeepsExactly(StateAt(s, sched, n), sched(n));
  }

  lemma {:induction false} StaysTrueUntil(p: nat -> bool, d: nat -> bool, n: nat)
    requires p(0) && (forall k: nat :: p(k) && !d(k) ==> p(k + 1)) && forall k: nat :: k < n ==> !d(k)
    ensures p(n)
  {
    if n > 0 { StaysTrueUntil(p, d, n - 1); }
  }

  lemma FreshNext(s: Session, sched: Schedule, n: nat)
    requires Fresh(StateAt(s, sched, n)) && !DropsAt(s, sched, n)
    ensures Fresh(StateAt(s, sched, n + 1))
  {
    KeptNext(s, sched, n);
  }

  lemma KeptUntil(s: Session, sched: Schedule, n: nat)
    requires Fresh(s) && forall m :: 0 <= m < n ==> !DropsAt(s, sched, m)
    ensures Fresh(StateAt(s, sched, n))
  {
    var p: nat -> bool := (k: nat) => Fresh(StateAt(s, sched, k));
    var d: nat -> bool := (k: nat) => DropsAt(s, sched, k);
    forall k: nat | p(k) && !d(k)
      ensures p(k + 1)
    {
      FreshNext(s, sched, k);
    }
    StaysTrueUntil(p, d, n);
  }

  /** Once a capability is dropped, the session never comes up. */
  lemma DroppedNeverUp(s: Session, sched: Schedule, n: nat)
    requires Fresh(s) && DropsAt(s, sched, n) && forall m :: 0 <= m < n ==> !DropsAt(s, sched, m)
    ensures !ComesUp(s, sched)
  {
    KeptUntil(s, sched, n);
    KeptNext(s, sched, n);
    StuckNeverUp(s, sched, n + 1);
  }

  lemma FirstDrop(s: Session, sched: Schedule, n: nat) returns (m: nat)
    requires DropsAt(s, sched, n)
    ensures DropsAt(s, sched, m) && forall k :: 0 <= k < m ==> !DropsAt(s, sched, k)
  {
    if k: nat :| k < n && DropsAt(s, sched, k) {
      m := FirstDrop(s, sched, k);
    } else {
      m := n;
    }
  }

  // ---- The theorem ----

  ghost predicate BothLeave(s: Session, sched: Schedule) {
    exists n: nat :: BothUp(StateAt(s, sched, n))
  }

  ghost predicate NeverDrops(s: Session, sched: Schedule) {
    forall n: nat :: !DropsAt(s, sched, n)
  }

  lemma NeverBothUp(s: Session, sched: Schedule)
    requires !BothLeave(s, sched)
    ensures !ComesUp(s, sched)
  {
    forall j: nat
      ensures !DoneFrom(s, sched, j)
    {
      assert !BothUp(StateAt(s, sched, j));
    }
  }

  lemma FreshComesUpExactly(s: Session, sched: Schedule)
    requires Fresh(s) && Fair(sched)
    ensures ComesUp(s, sched) <==> BothLeave(s, sched) && NeverDrops(s, sched)
  {
    if n: nat :| DropsAt(s, sched, n) {
      var m := FirstDrop(s, sched, n);
      DroppedNeverUp(s, sched, m);
    } else if n: nat :| BothUp(StateAt(s, sched, n)) {
      KeptUntil(s, sched, n);
      AliveComesUp(s, sched, n);
    } else {
      NeverBothUp(s, sched);
    }
  }

  /** Under a fair schedule, two peers of one redundancy group come up from reset for good if and only if
      both leave NONEXISTENT and no transit in NONEXISTENT takes a capability message from its queue. */
  lemma ResetComesUpExactly(rgId: int, nameA: string, nameB: string, sched: Schedule)
    requires Fair(sched)
    ensures var s := Reset(rgId, rgId, nameA, nameB);
            ComesUp(s, sched) <==> BothLeave(s, sched) && NeverDrops(s, sched)
  {
    FreshComesUpExactly(Reset(rgId, rgId, nameA, nameB), sched);
  }
}
