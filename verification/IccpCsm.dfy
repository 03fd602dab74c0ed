/**
 One ICCP connection state machine (section 4.2.1 of RFC 7275): the messages it exchanges, its
 variables, and what one call of `iccp_csm_transit` does to them.
 */
module IccpCsm {
  import opened Wrappers

  // ---- Messages ----

  const MSG_CAPABILITY := 0x0202
  const MSG_RG_CONNECT := 0x0700
  const MSG_RG_DISCONNECT := 0x0701
  const MSG_NOTIFICATION := 0x0702
  const MSG_RG_APP_DATA := 0x0703

  const TLV_CAPABILITY := 0x0700
  const TLV_SENDER_NAME := 0x0001
  const TLV_NAK := 0x0002
  const TLV_DISCONNECT_CODE := 0x0004
  const TLV_CODE_LENGTH := 4

  const STATUS_UNKNOWN_RG := 0x00010001
  const STATUS_RG_REMOVED := 0x00010010

  /** The fields of a message that either side reads. The buffer is cleared before it is filled, so
      fields that do not belong to a message type are zero. */
  datatype Message = Message(
    msgType: int, msgId: int, rgId: int,
    uBit: int, fBit: int, tlvType: int, tlvLen: int,
    sBit: int, majorVersion: int, minorVersion: int,
    statusCode: int, rejectedMsgId: int, senderName: string)

  const BLANK := Message(0, 0, 0, 0, 0, 0, 0, 0, 0, 0, 0, 0, "")

  function CapabilityMessage(msgId: int, sBit: int): Message {
    BLANK.(msgType := MSG_CAPABILITY, msgId := msgId, uBit := 1, tlvType := TLV_CAPABILITY, tlvLen := TLV_CODE_LENGTH,
           sBit := sBit, majorVersion := 1)
  }

  function ConnectMessage(msgId: int, rgId: int, name: string): Message {
    BLANK.(msgType := MSG_RG_CONNECT, msgId := msgId, rgId := rgId, tlvType := TLV_SENDER_NAME, tlvLen := |name|,
           senderName := name)
  }

  function DisconnectMessage(msgId: int, rgId: int, statusCode: int): Message {
    BLANK.(msgType := MSG_RG_DISCONNECT, msgId := msgId, rgId := rgId, tlvType := TLV_DISCONNECT_CODE,
           tlvLen := TLV_CODE_LENGTH, statusCode := statusCode)
  }

  /** Only an unknown redundancy group is reported in detail. */
  function NakMessage(msgId: int, rgId: int, statusCode: int, rejectedMsgId: int): Message {
    var nak := BLANK.(msgType := MSG_NOTIFICATION, msgId := msgId, rgId := rgId, tlvType := TLV_NAK, tlvLen := 8);
    if statusCode == STATUS_UNKNOWN_RG then nak.(statusCode := statusCode, rejectedMsgId := rejectedMsgId) else nak
  }

  predicate IsGoodCapability(m: Message) {
    && m.msgType == MSG_CAPABILITY
    && m.uBit == 1 && m.fBit == 0 && m.tlvType == TLV_CAPABILITY && m.tlvLen == TLV_CODE_LENGTH
    && m.sBit == 1 && m.majorVersion == 1 && m.minorVersion == 0
  }

  predicate IsGoodConnect(m: Message) {
    m.msgType == MSG_RG_CONNECT && m.uBit == 0 && m.fBit == 0 && m.tlvType == TLV_SENDER_NAME
  }

  predicate IsRemoval(m: Message) {
    && m.msgType == MSG_RG_DISCONNECT
    && m.uBit == 0 && m.fBit == 0 && m.tlvType == TLV_DISCONNECT_CODE && m.tlvLen == TLV_CODE_LENGTH
    && m.statusCode == STATUS_RG_REMOVED
  }

  // ---- The state machine's variables ----

  datatype ConnectionState = Nonexistent | Initialized | CapSent | CapRec | Connecting | Operational

  /** `struct IccpInfo`. */
  datatype Info = Info(
    rgId: int, senderName: string,
    statusCode: int, rejectedMsgId: int,
    peerCapability: bool, senderCapability: bool,
    peerConnect: bool, senderConnect: bool)

  datatype LogEntry = LogEntry(msgId: int, msgType: int)

  const LOG_SIZE := 128
  const UINT32 := 0x1_0000_0000

  /** The log of sent messages, with the counter that numbers them. */
  datatype Log = Log(nextMsgId: int, entries: seq<LogEntry>, end: nat)

  /** `struct CSM`; `connected` stands for `sock_fd > 0`. */
  datatype Csm = Csm(
    state: ConnectionState, connected: bool, info: Info,
    inbox: seq<Message>, appInbox: seq<Message>, log: Log, unknownIn: nat)

  /** A state machine after `iccp_csm_status_reset`, configured for a redundancy group. */
  function ResetCsm(rgId: int, name: string): Csm {
    Csm(Nonexistent, false, Info(rgId, name, 0, 0, false, false, false, false), [], [],
        Log(1, seq(LOG_SIZE, i => LogEntry(0, 0)), 0), 0)
  }

  // ---- Receiving ----

  /** The type of the first logged message with the given id. */
  function LoggedType(entries: seq<LogEntry>, msgId: int): Option<int> {
    if entries == [] then None
    else if entries[0].msgId == msgId then Some(entries[0].msgType)
    else LoggedType(entries[1..], msgId)
  }

  predicate IsForApplication(log: Log, m: Message) {
    || m.msgType == MSG_RG_APP_DATA
    || (m.msgType == MSG_NOTIFICATION && LoggedType(log.entries, m.rejectedMsgId) == Some(MSG_RG_APP_DATA))
  }

  /** `iccp_csm_enqueue_msg`: application data, and NAKs of application data, go to the application. */
  function Enqueue(c: Csm, m: Message): Csm {
    if IsForApplication(c.log, m) then c.(appInbox := c.appInbox + [m]) else c.(inbox := c.inbox + [m])
  }

  /** `iccp_csm_check_id_from_msg`. */
  function CheckId(i: Info, m: Message): Info {
    if m.msgType == MSG_CAPABILITY then i
    else if m.rgId == i.rgId then
      if i.statusCode == STATUS_UNKNOWN_RG then i.(statusCode := 0, rejectedMsgId := 0) else i
    else i.(statusCode := STATUS_UNKNOWN_RG, rejectedMsgId := m.rgId)
  }

  /** `iccp_csm_correspond_from_msg`. */
  function Correspond(i: Info, m: Message): Info {
    var i1 := CheckId(i, m);
    if m.msgType == MSG_CAPABILITY then (if IsGoodCapability(m) then i1.(peerCapability := true) else i1)
    else if m.msgType == MSG_RG_CONNECT then (if IsGoodConnect(m) then i1.(peerConnect := true) else i1)
    else if m.msgType == MSG_RG_DISCONNECT then
      (if IsRemoval(m) then i1.(senderConnect := false, peerConnect := false) else i1)
    else i1
  }

  predicate IsUnknown(m: Message) {
    m.msgType !in {MSG_CAPABILITY, MSG_RG_CONNECT, MSG_RG_DISCONNECT, MSG_NOTIFICATION, MSG_RG_APP_DATA}
  }

  function CorrespondAny(i: Info, m: Option<Message>): Info {
    if m.Some? then Correspond(i, m.value) else i
  }

  // ---- Sending ----

  /** `iccp_csm_prepare_iccp_msg`: what a state sends, if anything. */
  function Prepare(state: ConnectionState, i: Info, msgId: int): Option<Message> {
    match state
    case Initialized => Some(CapabilityMessage(msgId, if i.senderCapability then 1 else 0))
    case CapRec =>
      if i.statusCode > 0 then Some(NakMessage(msgId, i.rgId, i.statusCode, i.rejectedMsgId))
      else Some(ConnectMessage(msgId, i.rgId, i.senderName))
    case Connecting =>
      if i.statusCode > 0 then Some(NakMessage(msgId, i.rgId, i.statusCode, i.rejectedMsgId)) else None
    case Operational =>
      if !i.peerConnect then Some(DisconnectMessage(msgId, i.rgId, i.statusCode)) else None
    case _ => None
  }

  /** Whether the state runs the send step; OPERATIONAL only does so when it is about to be left. */
  predicate Sends(state: ConnectionState, i: Info) {
    state.Initialized? || state.CapRec? || state.Connecting? ||
    (state.Operational? && (!i.senderConnect || !i.peerConnect))
  }

  /** The log after sending: the id counter moves on and the message is recorded. */
  function Logged(log: Log, m: Option<Message>): Log {
    if m.None? || log.end >= |log.entries| then log
    else Log((log.nextMsgId + 1) % UINT32,
             log.entries[log.end := LogEntry(m.value.msgId, m.value.msgType)],
             if log.end + 1 >= LOG_SIZE then 0 else log.end + 1)
  }

  // ---- One transition ----

  /** The state that follows, from the variables after a message has been handled. */
  function NextState(state: ConnectionState, i: Info): ConnectionState {
    match state
    case Initialized =>
      if i.senderCapability && !i.peerCapability then CapSent
      else if i.senderCapability && i.peerCapability then CapRec
      else Initialized
    case CapSent => if i.senderCapability && i.peerCapability then CapRec else CapSent
    case CapRec =>
      if !i.peerConnect && i.statusCode == 0 then Connecting
      else if i.peerConnect && i.statusCode == 0 then Operational
      else CapRec
    case Connecting =>
      if i.statusCode > 0 then CapRec
      else if i.peerConnect && i.statusCode == 0 then Operational
      else Connecting
    case Operational => if !i.senderConnect || !i.peerConnect then CapRec else Operational
    case Nonexistent => Nonexistent
  }

  /** The enter-state handlers. */
  function Enter(state: ConnectionState, i: Info): Info {
    match state
    case Initialized => i.(senderCapability := true)
    case CapRec => i.(senderCapability := true, peerCapability := true)
    case Connecting => i.(senderConnect := true)
    case Operational => i.(senderConnect := true, peerConnect := true)
    case _ => i
  }

  function Head(q: seq<Message>): Option<Message> {
    if q == [] then None else Some(q[0])
  }

  function Tail(q: seq<Message>): seq<Message> {
    if q == [] then [] else q[1..]
  }

  /** A transition of a live connection that has taken `msg` from its queue. */
  function Run(c: Csm, msg: Option<Message>): (Csm, Option<Message>) {
    var i := CorrespondAny(c.info, msg);
    var out := if Sends(c.state, i) then Prepare(c.state, i, c.log.nextMsgId) else None;
    var state := NextState(c.state, i);
    var entered := if state != c.state || msg.Some? then Enter(state, i) else i;
    (c.(state := state, info := entered, log := Logged(c.log, out),
        unknownIn := if msg.Some? && IsUnknown(msg.value) then c.unknownIn + 1 else c.unknownIn), out)
  }

  /** `iccp_csm_transit`, with the message it sends. `ready` says whether a session is up and the
      configuration complete, which matters in NONEXISTENT only; there a queued message is lost. */
  function Transit(c: Csm, ready: bool): (Csm, Option<Message>) {
    if !c.state.Nonexistent? && !c.connected then (c.(state := Nonexistent), None)
    else
      var c0 := c.(inbox := Tail(c.inbox));
      if !c.state.Nonexistent? then Run(c0, Head(c.inbox))
      else if ready then (c0.(state := Initialized, connected := true, info := Enter(Initialized, c.info)), None)
      else (c0, None)
  }

  // ---- The object ----

  class Connection {
    var state: ConnectionState
    var connected: bool
    var info: Info
    var inbox: seq<Message>
    var appInbox: seq<Message>
    var nextMsgId: int
    var entries: array<LogEntry>
    var logEnd: nat
    var unknownIn: nat

    ghost predicate Valid()
      reads this, entries
    {
      entries.Length == LOG_SIZE && logEnd < LOG_SIZE
    }

    ghost function LogView(): Log
      reads this, entries
    {
      Log(nextMsgId, entries[..], logEnd)
    }

    ghost function View(): Csm
      reads this, entries
    {
      Csm(state, connected, info, inbox, appInbox, LogView(), unknownIn)
    }

    constructor (rgId: int, name: string)
      ensures Valid() && fresh(entries) && View() == ResetCsm(rgId, name)
    {
      state, connected := Nonexistent, false;
      info := Info(rgId, name, 0, 0, false, false, false, false);
      inbox, appInbox, nextMsgId, unknownIn := [], [], 1, 0;
      entries := new LogEntry[LOG_SIZE](i => LogEntry(0, 0));
      logEnd := 0;
      new;
      assert entries[..] == seq(LOG_SIZE, i => LogEntry(0, 0));
    }

    method EnqueueMsg(m: Message)
      requires Valid()
      modifies this`inbox, this`appInbox
      ensures Valid() && View() == Enqueue(old(View()), m)
    {
      var forApplication := m.msgType == MSG_RG_APP_DATA;
      if m.msgType == MSG_NOTIFICATION {
        var i := 0;
        while i < LOG_SIZE && entries[i].msgId != m.rejectedMsgId
          invariant 0 <= i <= LOG_SIZE
          invariant LoggedType(entries[..], m.rejectedMsgId) == LoggedType(entries[i..], m.rejectedMsgId)
        {
          assert entries[i..][1..] == entries[i + 1..];
          i := i + 1;
        }
        forApplication := i < LOG_SIZE && entries[i].msgType == MSG_RG_APP_DATA;
      }
      if forApplication {
        appInbox := appInbox + [m];
      } else {
        inbox := inbox + [m];
      }
    }

    method CorrespondFromMsg(m: Message)
      modifies this`info, this`unknownIn
      ensures info == Correspond(old(info), m)
      ensures unknownIn == if IsUnknown(m) then old(unknownIn) + 1 else old(unknownIn)
    {
      if m.msgType != MSG_CAPABILITY {
        if m.rgId == info.rgId {
          if info.statusCode == STATUS_UNKNOWN_RG {
            info := info.(statusCode := 0, rejectedMsgId := 0);
          }
        } else {
          info := info.(statusCode := STATUS_UNKNOWN_RG, rejectedMsgId := m.rgId);
        }
      }
      if m.msgType == MSG_CAPABILITY {
        if IsGoodCapability(m) {
          info := info.(peerCapability := true);
        }
      } else if m.msgType == MSG_RG_CONNECT {
        if IsGoodConnect(m) {
          info := info.(peerConnect := true);
        }
      } else if m.msgType == MSG_RG_DISCONNECT {
        if IsRemoval(m) {
          info := info.(senderConnect := false, peerConnect := false);
        }
      } else if m.msgType != MSG_NOTIFICATION && m.msgType != MSG_RG_APP_DATA {
        unknownIn := unknownIn + 1;
      }
    }

    /** `iccp_csm_prepare_iccp_msg` followed by `iccp_csm_send`. */
    method PrepareAndSend() returns (out: Option<Message>)
      requires Valid()
      modifies this`nextMsgId, this`logEnd, entries
      ensures Valid() && out == Prepare(state, info, old(nextMsgId)) && LogView() == Logged(old(LogView()), out)
    {
      out := None;
      if state == Initialized {
        out := Some(CapabilityMessage(nextMsgId, if info.senderCapability then 1 else 0));
      } else if (state == CapRec || state == Connecting) && info.statusCode > 0 {
        out := Some(NakMessage(nextMsgId, info.rgId, info.statusCode, info.rejectedMsgId));
      } else if state == CapRec {
        out := Some(ConnectMessage(nextMsgId, info.rgId, info.senderName));
      } else if state == Operational && !info.peerConnect {
        out := Some(DisconnectMessage(nextMsgId, info.rgId, info.statusCode));
      }
      if out.Some? {
        nextMsgId := (nextMsgId + 1) % UINT32;
        entries[logEnd] := LogEntry(out.value.msgId, out.value.msgType);
        logEnd := logEnd + 1;
        if logEnd >= LOG_SIZE {
          logEnd := 0;
        }
        assert entries[..] == old(entries[..])[old(logEnd) := LogEntry(out.value.msgId, out.value.msgType)];
      }
    }

    method EnterState()
      modifies this`info
      ensures info == Enter(state, old(info))
    {
      match state {
        case Initialized => info := info.(senderCapability := true);
        case CapRec => info := info.(senderCapability := true, peerCapability := true);
        case Connecting => info := info.(senderConnect := true);
        case Operational => info := info.(senderConnect := true, peerConnect := true);
        case _ =>
      }
    }

    /** The body of the state switch, once a message has been handled. */
    method RunState() returns (out: Option<Message>)
      requires Valid() && state != Nonexistent
      modifies this`state, this`nextMsgId, this`logEnd, entries
      ensures Valid() && state == NextState(old(state), info)
      ensures out == if Sends(old(state), info) then Prepare(old(state), info, old(nextMsgId)) else None
      ensures LogView() == Logged(old(LogView()), out)
    {
      out := None;
      match state {
        case Initialized =>
          out := PrepareAndSend();
          if info.senderCapability && !info.peerCapability {
            state := CapSent;
          } else if info.senderCapability && info.peerCapability {
            state := CapRec;
          }
        case CapSent =>
          if info.senderCapability && info.peerCapability {
            state := CapRec;
          }
        case CapRec =>
          out := PrepareAndSend();
          if !info.peerConnect && info.statusCode == 0 {
            state := Connecting;
          } else if info.peerConnect && info.statusCode == 0 {
            state := Operational;
          }
        case Connecting =>
          out := PrepareAndSend();
          if info.statusCode > 0 {
            state := CapRec;
          } else if info.peerConnect && info.statusCode == 0 {
            state := Operational;
          }
        case Operational =>
          if !info.senderConnect || !info.peerConnect {
            out := PrepareAndSend();
            state := CapRec;
          }
      }
    }

    /** `iccp_csm_transit`. */
    method TransitOnce(ready: bool) returns (out: Option<Message>)
      requires Valid()
      modifies this, entries
      ensures Valid() && entries == old(entries)
      ensures View() == Transit(old(View()), ready).0 && out == Transit(old(View()), ready).1
    {
      var prev := state;
      out := None;
      if state != Nonexistent && !connected {
        state := Nonexistent;
        return;
      }
      var msg := Head(inbox);
      inbox := Tail(inbox);
      if state == Nonexistent {
        if ready {
          connected, state := true, Initialized;
        }
      } else {
        if msg.Some? {
          CorrespondFromMsg(msg.value);
        }
        out := RunState();
      }
      if prev != state || (state != Nonexistent && msg.Some?) {
        EnterState();
      }
    }
  }
}
