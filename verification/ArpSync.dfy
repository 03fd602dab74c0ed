/**
 The ARP table of an MC-LAG peer and the synchronisation messages it queues for the other peer.
 */
module ArpSync {
  import opened Wrappers

  const NEIGH_SYNC_LIF := 0
  const NEIGH_SYNC_ADD := 1
  const NEIGH_SYNC_DEL := 2

  type Mac = seq<nat>

  const BROADCAST: Mac := [0xff, 0xff, 0xff, 0xff, 0xff, 0xff]

  /** A table entry, and the contents of a message. */
  datatype Arp = Arp(op: int, ifname: string, ip: nat, mac: Mac)

  /** What the kernel or a packet says about a neighbour. */
  datatype Event = Kernel(ip: nat, ifname: string, mac: Mac, isDelete: bool) | Reply(ip: nat, ifname: string, mac: Mac)

  // ---- One event ----

  /** The first entry for an address at or behind `i`, or the length of the table. */
  function Find(arps: seq<Arp>, ip: nat, i: nat): (r: nat)
    requires i <= |arps|
    ensures i <= r <= |arps| && (r < |arps| ==> arps[r].ip == ip) && forall k :: i <= k < r ==> arps[k].ip != ip
    decreases |arps| - i
  {
    if i == |arps| || arps[i].ip == ip then i else Find(arps, ip, i + 1)
  }

  /** A neighbour with the broadcast address is taken as gone. */
  predicate IsRemoval(e: Event) {
    e.Kernel? && (e.isDelete || e.mac == BROADCAST)
  }

  predicate IsIgnored(e: Event) {
    e.Reply? && e.mac == BROADCAST
  }

  function Entry(e: Event): Arp { Arp(NEIGH_SYNC_LIF, e.ifname, e.ip, e.mac) }

  function Table(arps: seq<Arp>, e: Event): seq<Arp> {
    var i := Find(arps, e.ip, 0);
    if IsIgnored(e) then arps
    else if IsRemoval(e) then if i < |arps| then arps[..i] + arps[i + 1..] else arps
    else if i < |arps| then arps[i := Entry(e)] else arps + [Entry(e)]
  }

  /** The messages that an event queues. A known neighbour is announced again only by a reply packet, or
      when something has changed. */
  function Sent(arps: seq<Arp>, e: Event, exchange: bool): seq<Arp> {
    var i := Find(arps, e.ip, 0);
    if IsIgnored(e) || !exchange then []
    else if IsRemoval(e) then if i < |arps| then [Entry(e).(op := NEIGH_SYNC_DEL)] else []
    else if e.Kernel? && i < |arps| && arps[i] == Entry(e) then []
    else [Entry(e).(op := NEIGH_SYNC_ADD)]
  }

  class Mlacp {
    var arps: seq<Arp>
    var messages: seq<Arp>
    var exchange: bool

    constructor (exchange: bool)
      ensures arps == messages == [] && this.exchange == exchange
    {
      arps, messages, this.exchange := [], [], exchange;
    }

    method FindEntry(ip: nat) returns (i: nat)
      ensures i == Find(arps, ip, 0)
    {
      i := 0;
      while i < |arps| && arps[i].ip != ip
        invariant i <= |arps| && Find(arps, ip, i) == Find(arps, ip, 0)
      {
        i := i + 1;
      }
    }

    method Enqueue(msg: Arp)
      modifies `messages
      ensures messages == old(messages) + if exchange then [msg] else []
    {
      if exchange {
        messages := messages + [msg];
      }
    }

    /** A neighbour event from the kernel. */
    method LearnFromKernel(ip: nat, ifname: string, mac: Mac, isDelete: bool)
      modifies this
      ensures arps == Table(old(arps), Kernel(ip, ifname, mac, isDelete)) && exchange == old(exchange)
      ensures messages == old(messages) + Sent(old(arps), Kernel(ip, ifname, mac, isDelete), exchange)
    {
      var msg := Arp(NEIGH_SYNC_LIF, ifname, ip, mac);
      var removal := isDelete || mac == BROADCAST;
      var i := FindEntry(ip);
      var found, update := i < |arps|, false;
      if found {
        if removal {
          arps := arps[..i] + arps[i + 1..];
        } else if arps[i].op != msg.op || arps[i].ifname != msg.ifname || arps[i].mac != msg.mac {
          update := true;
          arps := arps[i := arps[i].(op := msg.op, ifname := msg.ifname, mac := msg.mac)];
        }
      }
      if found && !removal && !update {
        return;
      }
      if !removal {
        if !found {
          arps := arps + [msg];
        }
        Enqueue(msg.(op := NEIGH_SYNC_ADD));
      } else if found {
        Enqueue(msg.(op := NEIGH_SYNC_DEL));
      }
    }

    /** An ARP reply packet. */
    method UpdateFromReply(ip: nat, ifname: string, mac: Mac)
      modifies this
      ensures arps == Table(old(arps), Reply(ip, ifname, mac)) && exchange == old(exchange)
      ensures messages == old(messages) + Sent(old(arps), Reply(ip, ifname, mac), exchange)
    {
      var msg := Arp(NEIGH_SYNC_LIF, ifname, ip, mac);
      if mac == BROADCAST {
        return;
      }
      var i := FindEntry(ip);
      if i < |arps| {
        if arps[i].op != msg.op || arps[i].ifname != msg.ifname || arps[i].mac != msg.mac {
          arps := arps[i := arps[i].(op := msg.op, ifname := msg.ifname, mac := msg.mac)];
        }
      } else {
        arps := arps + [msg];
      }
      Enqueue(msg.(op := NEIGH_SYNC_ADD));
    }
  }

  // ---- The queue is a log of the table ----

  /** Interface and hardware address by IP address. */
  type Neighbours = map<nat, (string, Mac)>

  /** What the other peer makes of the messages. */
  function Replay(m: Neighbours, messages: seq<Arp>): Neighbours {
    if messages == [] then m
    else
      var msg, before := messages[|messages| - 1], Replay(m, messages[..|messages| - 1]);
      if msg.op == NEIGH_SYNC_ADD then before[msg.ip := (msg.ifname, msg.mac)] else before - {msg.ip}
  }

  lemma {:induction false} ReplayConcat(m: Neighbours, a: seq<Arp>, b: seq<Arp>)
    ensures Replay(m, a + b) == Replay(Replay(m, a), b)
  {
    if b == [] {
      assert a + b == a;
    } else {
      var n := |b| - 1;
      assert (a + b)[..|a + b| - 1] == a + b[..n];
      ReplayConcat(m, a, b[..n]);
    }
  }

  predicate UniqueIps(arps: seq<Arp>) {
    forall i, j :: 0 <= i < j < |arps| ==> arps[i].ip != arps[j].ip
  }

  predicate HasIp(arps: seq<Arp>, ip: nat) {
    exists k :: 0 <= k < |arps| && arps[k].ip == ip
  }

  /** `m` is the map that the table stands for. */
  ghost predicate Stands(arps: seq<Arp>, m: Neighbours) {
    && UniqueIps(arps)
    && (forall k :: 0 <= k < |arps| ==> arps[k].ip in m && m[arps[k].ip] == (arps[k].ifname, arps[k].mac))
    && (forall ip :: ip in m ==> HasIp(arps, ip))
  }

  lemma AppendedStands(arps: seq<Arp>, m: Neighbours, x: Arp)
    requires Stands(arps, m) && !HasIp(arps, x.ip)
    ensures Stands(arps + [x], m[x.ip := (x.ifname, x.mac)])
  {
    var t := arps + [x];
    assert t[|arps|] == x;
    forall ip | ip in m
      ensures HasIp(t, ip)
    {
      var k :| 0 <= k < |arps| && arps[k].ip == ip;
      assert t[k].ip == ip;
    }
  }

  lemma UpdatedStands(arps: seq<Arp>, m: Neighbours, i: nat, x: Arp)
    requires Stands(arps, m) && i < |arps| && arps[i].ip == x.ip
    ensures Stands(arps[i := x], m[x.ip := (x.ifname, x.mac)])
  {
    var t := arps[i := x];
    forall ip | ip in m
      ensures HasIp(t, ip)
    {
      var k :| 0 <= k < |arps| && arps[k].ip == ip;
      assert t[k].ip == ip;
    }
  }

  function Without(arps: seq<Arp>, i: nat): seq<Arp>
    requires i < |arps|
  {
    arps[..i] + arps[i + 1..]
  }

  lemma WithoutAt(arps: seq<Arp>, i: nat, k: nat)
    requires i < |arps| && k < |arps| && k != i
    ensures Without(arps, i)[if k < i then k else k - 1] == arps[k]
  {
  }

  lemma WithoutMembers(arps: seq<Arp>, i: nat, k: nat)
    requires i < |arps| && k < |Without(arps, i)|
    ensures Without(arps, i)[k] == arps[if k < i then k else k + 1]
  {
  }

  lemma RemovedUnique(arps: seq<Arp>, i: nat)
    requires UniqueIps(arps) && i < |arps|
    ensures UniqueIps(Without(arps, i)) && forall k :: 0 <= k < |arps| - 1 ==> Without(arps, i)[k].ip != arps[i].ip
  {
    forall k | 0 <= k < |arps| - 1
      ensures Without(arps, i)[k] == arps[if k < i then k else k + 1]
    {
      WithoutMembers(arps, i, k);
    }
  }

  lemma RemovedStands(arps: seq<Arp>, m: Neighbours, i: nat)
    requires Stands(arps, m) && i < |arps|
    ensures Stands(Without(arps, i), m - {arps[i].ip})
  {
    var t := Without(arps, i);
    RemovedUnique(arps, i);
    forall k | 0 <= k < |t|
      ensures t[k].ip in m && m[t[k].ip] == (t[k].ifname, t[k].mac)
    {
      WithoutMembers(arps, i, k);
    }
    forall ip | ip in m && ip != arps[i].ip
      ensures HasIp(t, ip)
    {
      var k :| 0 <= k < |arps| && arps[k].ip == ip;
      WithoutAt(arps, i, k);
    }
  }

  lemma ReplayOne(m: Neighbours, msg: Arp)
    ensures Replay(m, [msg]) == if msg.op == NEIGH_SYNC_ADD then m[msg.ip := (msg.ifname, msg.mac)] else m - {msg.ip}
  {
  }

  /** One event keeps one entry per address, and its messages carry the change of the table. */
  lemma EventIsLogged(arps: seq<Arp>, m: Neighbours, e: Event)
    requires Stands(arps, m)
    ensures Stands(Table(arps, e), Replay(m, Sent(arps, e, true)))
  {
    if IsIgnored(e) {
    } else if IsRemoval(e) {
      RemovalIsLogged(arps, m, e);
    } else {
      AdditionIsLogged(arps, m, e);
    }
  }

  lemma RemovalIsLogged(arps: seq<Arp>, m: Neighbours, e: Event)
    requires Stands(arps, m) && IsRemoval(e)
    ensures Stands(Table(arps, e), Replay(m, Sent(arps, e, true)))
  {
    var i := Find(arps, e.ip, 0);
    if i < |arps| {
      ReplayOne(m, Entry(e).(op := NEIGH_SYNC_DEL));
      RemovedStands(arps, m, i);
      assert Table(arps, e) == Without(arps, i);
    }
  }

  lemma AdditionIsLogged(arps: seq<Arp>, m: Neighbours, e: Event)
    requires Stands(arps, m) && !IsRemoval(e) && !IsIgnored(e)
    ensures Stands(Table(arps, e), Replay(m, Sent(arps, e, true)))
  {
    var i, x := Find(arps, e.ip, 0), Entry(e);
    ReplayOne(m, x.(op := NEIGH_SYNC_ADD));
    if i == |arps| {
      AppendedStands(arps, m, x);
    } else if arps[i] == x && e.Kernel? {
      Unchanged(arps, i);
    } else {
      UpdatedStands(arps, m, i, x);
    }
  }

  lemma Unchanged(arps: seq<Arp>, i: nat)
    requires i < |arps|
    ensures arps[i := arps[i]] == arps
  {
  }

  // ---- Runs ----

  function TableAfter(arps: seq<Arp>, events: seq<Event>): seq<Arp> {
    if events == [] then arps else Table(TableAfter(arps, events[..|events| - 1]), events[|events| - 1])
  }

  function SentDuring(arps: seq<Arp>, events: seq<Event>): seq<Arp> {
    if events == [] then []
    else
      var before := events[..|events| - 1];
      SentDuring(arps, before) + Sent(TableAfter(arps, before), events[|events| - 1], true)
  }

  /** Over any run of events in EXCHANGE state, the table has at most one entry per address, and
      replaying the queued messages onto the starting table gives the current one. */
  lemma {:induction false} QueueIsLog(arps: seq<Arp>, m: Neighbours, events: seq<Event>)
    requires Stands(arps, m)
    ensures Stands(TableAfter(arps, events), Replay(m, SentDuring(arps, events)))
  {
    if events != [] {
      var before, last := events[..|events| - 1], events[|events| - 1];
      QueueIsLog(arps, m, before);
      EventIsLogged(TableAfter(arps, before), Replay(m, SentDuring(arps, before)), last);
      ReplayConcat(m, SentDuring(arps, before), Sent(TableAfter(arps, before), last, true));
    }
  }

  // ---- The table follows the events ----

  /** An event that decides about the entry of an address: any kernel event for it, and a reply packet with a
      hardware address other than broadcast. */
  predicate Counts(e: Event, ip: nat) {
    e.ip == ip && (e.Kernel? || e.mac != [0xff, 0xff, 0xff, 0xff, 0xff, 0xff])
  }

  /** The event says that the address is there: it is not deleted, and its hardware address is not broadcast. */
  predicate Announces(e: Event) {
    e.mac != [0xff, 0xff, 0xff, 0xff, 0xff, 0xff] && (e.Kernel? ==> !e.isDelete)
  }

  /** The last event that decides about an address. */
  function LastFor(events: seq<Event>, ip: nat): Option<Event> {
    if events == [] then None
    else if Counts(events[|events| - 1], ip) then Some(events[|events| - 1])
    else LastFor(events[..|events| - 1], ip)
  }

  /** The entries after an event: those of its address as it says, the others as before. */
  ghost predicate Follows(before: seq<Arp>, after: seq<Arp>, e: Event, x: Arp) {
    x in after <==> if Counts(e, x.ip) then Announces(e) && x == Arp(0, e.ifname, e.ip, e.mac) else x in before
  }

  lemma RemovedFollows(arps: seq<Arp>, i: nat, x: Arp)
    requires UniqueIps(arps) && i < |arps|
    ensures x in Without(arps, i) <==> x in arps && x.ip != arps[i].ip
  {
    RemovedUnique(arps, i);
    if k :| 0 <= k < |arps| && arps[k] == x && k != i {
      WithoutAt(arps, i, k);
    }
    if k :| 0 <= k < |arps| - 1 && Without(arps, i)[k] == x {
      WithoutMembers(arps, i, k);
    }
  }

  lemma UpdatedFollows(arps: seq<Arp>, i: nat, y: Arp, x: Arp)
    requires UniqueIps(arps) && i < |arps| && arps[i].ip == y.ip
    ensures x in arps[i := y] <==> x == y || (x in arps && x.ip != y.ip)
  {
    var t := arps[i := y];
    assert t[i] == y;
    if k :| 0 <= k < |arps| && arps[k] == x && k != i {
      assert t[k] == x;
    }
  }

  lemma NoneFound(arps: seq<Arp>, ip: nat, x: Arp)
    requires Find(arps, ip, 0) == |arps| && x in arps
    ensures x.ip != ip
  {
  }

  lemma TableFollows(arps: seq<Arp>, e: Event, x: Arp)
    requires UniqueIps(arps)
    ensures Follows(arps, Table(arps, e), e, x)
  {
    var i := Find(arps, e.ip, 0);
    if IsIgnored(e) {
    } else if i == |arps| {
      if x in arps { NoneFound(arps, e.ip, x); }
    } else if IsRemoval(e) {
      RemovedFollows(arps, i, x);
      assert Table(arps, e) == Without(arps, i);
    } else {
      UpdatedFollows(arps, i, Entry(e), x);
    }
  }

  /** The map that a table without duplicate addresses stands for. */
  function Standing(arps: seq<Arp>): (m: Neighbours)
    requires UniqueIps(arps)
    ensures Stands(arps, m)
  {
    if arps == [] then map[]
    else
      var pre, x := arps[..|arps| - 1], arps[|arps| - 1];
      AppendedStands(pre, Standing(pre), x);
      assert pre + [x] == arps;
      Standing(pre)[x.ip := (x.ifname, x.mac)]
  }

  lemma {:induction false} TableAfterUnique(arps: seq<Arp>, events: seq<Event>)
    requires UniqueIps(arps)
    ensures UniqueIps(TableAfter(arps, events))
  {
    QueueIsLog(arps, Standing(arps), events);
  }

  /** After any run of events an entry is in the table if and only if the last event that decides about its
      address announces it, or, if there is no such event, it was there at the start. */
  lemma {:induction false} TableFollowsEvents(arps: seq<Arp>, events: seq<Event>, x: Arp)
    requires UniqueIps(arps)
    ensures UniqueIps(TableAfter(arps, events))
    ensures x in TableAfter(arps, events) <==>
      match LastFor(events, x.ip)
      case None => x in arps
      case Some(e) => Announces(e) && x == Arp(0, e.ifname, e.ip, e.mac)
  {
    TableAfterUnique(arps, events);
    if events != [] {
      var before, last := events[..|events| - 1], events[|events| - 1];
      TableFollowsEvents(arps, before, x);
      TableFollows(TableAfter(arps, before), last, x);
    }
  }

  // ---- When a message is queued ----

  /** In EXCHANGE state, and in no other, a reply packet is announced, a kernel event if it changes the table, and
      the message says what the event says. */
  lemma SentExactly(arps: seq<Arp>, e: Event, exchange: bool)
    requires UniqueIps(arps)
    ensures var known := exists x :: x in arps && x.ip == e.ip;
            var same := Arp(0, e.ifname, e.ip, e.mac) in arps;
            Sent(arps, e, exchange) ==
              if !exchange then []
              else if Announces(e) && (e.Reply? || !same) then [Arp(1, e.ifname, e.ip, e.mac)]
              else if e.Kernel? && !Announces(e) && known then [Arp(2, e.ifname, e.ip, e.mac)]
              else []
  {
    var i := Find(arps, e.ip, 0);
    if i < |arps| {
      assert arps[i] in arps;
      if k :| 0 <= k < |arps| && arps[k] == Entry(e) {
        assert k == i;
      }
    } else if x :| x in arps && x.ip == e.ip {
      NoneFound(arps, e.ip, x);
    }
  }
}
