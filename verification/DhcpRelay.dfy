/**
 The DHCPv6 relay: wrapping client messages in Relay-Forward messages and unwrapping Relay-Reply
 messages, sections 9 and 21.10 of RFC 8415 and section 4 of RFC 6939.
 */
module DhcpRelay {
  import opened Wrappers
  import opened Octets

  type Bytes = seq<Byte>

  const RELAY_FORW: Byte := 12
  const OPTION_RELAY_MSG := 9
  const OPTION_CLIENT_LINKLAYER_ADDR := 79
  const HEADER := 34

  // ---- Options ----

  datatype DhcpOption = DhcpOption(code: nat, data: Bytes)

  predicate ValidOption(o: DhcpOption) { o.code < 0x1_0000 && |o.data| < 0x1_0000 }

  predicate ValidOptions(os: seq<DhcpOption>) { forall k :: 0 <= k < |os| ==> ValidOption(os[k]) }

  function EncodeOption(o: DhcpOption): Bytes
    requires ValidOption(o)
  {
    Be16(o.code) + Be16(|o.data|) + o.data
  }

  function Encode(os: seq<DhcpOption>): Bytes
    requires ValidOptions(os)
  {
    if os == [] then [] else EncodeOption(os[0]) + Encode(os[1..])
  }

  /** The end of the option at position `i`. */
  function OptionEnd(b: Bytes, i: nat): nat
    requires i + 4 <= |b|
  {
    i + 4 + Half(b, i + 2)
  }

  /** From position `i` on, options follow one another up to the end. */
  predicate IsOptionList(b: Bytes, i: nat)
    decreases |b| - i
  {
    i == |b| || (i + 4 <= |b| && OptionEnd(b, i) <= |b| && IsOptionList(b, OptionEnd(b, i)))
  }

  function Decode(b: Bytes, i: nat): (os: seq<DhcpOption>)
    requires IsOptionList(b, i)
    ensures ValidOptions(os)
    decreases |b| - i
  {
    if i == |b| then []
    else [DhcpOption(Half(b, i), b[i + 4..OptionEnd(b, i)])] + Decode(b, OptionEnd(b, i))
  }

  /** What has been encoded is decoded, behind any prefix. */
  lemma {:induction false} DecodeEncode(prefix: Bytes, os: seq<DhcpOption>)
    requires ValidOptions(os)
    ensures IsOptionList(prefix + Encode(os), |prefix|) && Decode(prefix + Encode(os), |prefix|) == os
    decreases |os|
  {
    var b := prefix + Encode(os);
    if os == [] {
      assert b == prefix;
    } else {
      var next := prefix + EncodeOption(os[0]);
      DecodeEncode(next, os[1..]);
      assert b == next + Encode(os[1..]);
      FirstOption(prefix, os[0], Encode(os[1..]));
    }
  }

  lemma FirstOption(prefix: Bytes, o: DhcpOption, rest: Bytes)
    requires ValidOption(o)
    ensures var b, i := prefix + EncodeOption(o) + rest, |prefix|;
            && i + 4 <= |b| && Half(b, i) == o.code && OptionEnd(b, i) == i + |EncodeOption(o)| <= |b|
            && b[i + 4..OptionEnd(b, i)] == o.data
  {
  }

  /** What has been decoded is encoded again: the option list is the only reading of the bytes. */
  lemma {:induction false} EncodeDecode(b: Bytes, i: nat)
    requires i <= |b| && IsOptionList(b, i)
    ensures Encode(Decode(b, i)) == b[i..]
    decreases |b| - i
  {
    if i < |b| {
      var end := OptionEnd(b, i);
      EncodeDecode(b, end);
      var o := DhcpOption(Half(b, i), b[i + 4..end]);
      FirstBytes(b, i);
      EncodeCons(o, Decode(b, end));
      TwoParts(b, i, end);
    }
  }

  lemma EncodeCons(o: DhcpOption, os: seq<DhcpOption>)
    requires ValidOption(o) && ValidOptions(os)
    ensures ValidOptions([o] + os) && Encode([o] + os) == EncodeOption(o) + Encode(os)
  {
  }

  lemma TwoParts(b: Bytes, i: nat, end: nat)
    requires i <= end <= |b|
    ensures b[i..end] + b[end..] == b[i..]
  {
  }

  lemma HalfBytes(b: Bytes, i: nat)
    requires i + 2 <= |b|
    ensures Half(b, i) < 0x1_0000 && Be16(Half(b, i)) == b[i..i + 2]
  {
    var n := Half(b, i);
    assert n / 256 == b[i] && n % 256 == b[i + 1];
  }

  lemma FirstBytes(b: Bytes, i: nat)
    requires i + 4 <= |b| && OptionEnd(b, i) <= |b|
    ensures var o := DhcpOption(Half(b, i), b[i + 4..OptionEnd(b, i)]); ValidOption(o) && EncodeOption(o) == b[i..OptionEnd(b, i)]
  {
    HalfBytes(b, i);
    HalfBytes(b, i + 2);
    assert b[i..i + 2] + b[i + 2..i + 4] + b[i + 4..OptionEnd(b, i)] == b[i..OptionEnd(b, i)];
  }

  // ---- Wrapping ----

  /** The header of a relay message: type, hop count, link address, peer address. */
  function Header(link: Bytes, peer: Bytes): Bytes {
    [RELAY_FORW, 0] + link + peer
  }

  /** The Relay-Forward message for a client message. The hardware address is appended whether or not
      its option is. */
  function Forward(msg: Bytes, link: Bytes, peer: Bytes, mac: Bytes, option79: bool): Bytes
    requires |msg| < 0x1_0000
  {
    Header(link, peer) + (Be16(OPTION_RELAY_MSG) + Be16(|msg|) + msg)
    + AddressOption(option79) + mac
  }

  /** Copies bytes to a position of the buffer. */
  method Copy(buffer: array<Byte>, position: nat, data: Bytes) returns (next: nat)
    requires position + |data| <= buffer.Length
    modifies buffer
    ensures next == position + |data| && buffer[..next] == old(buffer[..position]) + data
    ensures forall k :: next <= k < buffer.Length ==> buffer[k] == old(buffer[k])
  {
    for i := 0 to |data|
      invariant buffer[..position + i] == old(buffer[..position]) + data[..i]
      invariant forall k :: position + i <= k < buffer.Length ==> buffer[k] == old(buffer[k])
    {
      buffer[position + i] := data[i];
    }
    next := position + |data|;
  }

  /** The option that holds the client's message. */
  method RelayForward(buffer: array<Byte>, position: nat, msg: Bytes) returns (next: nat)
    requires |msg| < 0x1_0000 && position + 4 + |msg| <= buffer.Length
    modifies buffer
    ensures next == position + 4 + |msg|
    ensures buffer[..next] == old(buffer[..position]) + (Be16(OPTION_RELAY_MSG) + Be16(|msg|) + msg)
    ensures forall k :: next <= k < buffer.Length ==> buffer[k] == old(buffer[k])
  {
    next := Copy(buffer, position, Be16(OPTION_RELAY_MSG) + Be16(|msg|));
    next := Copy(buffer, next, msg);
  }

  /** The start of option 79, if it is on. */
  function AddressOption(option79: bool): Bytes {
    if option79 then Be16(OPTION_CLIENT_LINKLAYER_ADDR) + Be16(2 + 6) + Be16(1) else []
  }

  /** The message is built in the buffer from front to back; what lies behind it stays. */
  method RelayClient(buffer: array<Byte>, msg: Bytes, link: Bytes, peer: Bytes, mac: Bytes, option79: bool)
    returns (n: nat)
    requires |msg| < 0x1_0000 && |Forward(msg, link, peer, mac, option79)| <= buffer.Length
    modifies buffer
    ensures n <= buffer.Length && buffer[..n] == Forward(msg, link, peer, mac, option79)
    ensures forall k :: n <= k < buffer.Length ==> buffer[k] == old(buffer[k])
  {
    n := Copy(buffer, 0, Header(link, peer));
    assert buffer[..n] == Header(link, peer);
    n := RelayForward(buffer, n, msg);
    if option79 {
      n := Copy(buffer, n, AddressOption(option79));
    }
    n := Copy(buffer, n, mac);
  }

  /** The receive buffer and the buffer for the result have the same size. */
  const BUFFER := 4096

  /** What precedes a DHCPv6 message in a frame: the Ethernet, IPv6 and UDP headers. */
  const FRAME_HEADERS := 14 + 40 + 8

  /** The result for a message that lies within the received frame fits into the buffer, and a client message
      fits if and only if it is at most 4046 bytes long, 4052 without option 79. */
  lemma ForwardFits(frame: Bytes, start: nat, end: nat, link: Bytes, peer: Bytes, mac: Bytes, option79: bool)
    requires start <= end <= |frame| && |link| == |peer| == 16 && |mac| == 6 && end - start < 0x1_0000
    ensures |Forward(frame[start..end], link, peer, mac, option79)| <= BUFFER <==>
      end - start <= if option79 then 4046 else 4052
    ensures |frame| <= BUFFER && FRAME_HEADERS <= start ==>
      |Forward(frame[start..end], link, peer, mac, option79)| <= BUFFER
  {
    assert |Forward(frame[start..end], link, peer, mac, option79)| ==
      HEADER + 4 + (end - start) + (if option79 then 6 else 0) + 6;
  }

  function ClientOptions(msg: Bytes, mac: Bytes): seq<DhcpOption> {
    [DhcpOption(OPTION_RELAY_MSG, msg), DhcpOption(OPTION_CLIENT_LINKLAYER_ADDR, Be16(1) + mac)]
  }

  lemma EncodeTwo(a: DhcpOption, b: DhcpOption)
    requires ValidOption(a) && ValidOption(b)
    ensures Encode([a, b]) == EncodeOption(a) + EncodeOption(b)
  {
    EncodeCons(b, []);
    EncodeCons(a, [b]);
    assert [a] + [b] == [a, b] && [b] + [] == [b];
    assert EncodeOption(b) + [] == EncodeOption(b);
  }

  lemma Associates(a: Bytes, b: Bytes, c: Bytes, d: Bytes, e: Bytes, f: Bytes)
    ensures a + b + (c + d + e) + f == a + (b + (c + d + (e + f)))
  {
  }

  lemma ForwardIsEncoded(msg: Bytes, link: Bytes, peer: Bytes, mac: Bytes)
    requires |mac| == 6 && |msg| < 0x1_0000
    ensures Forward(msg, link, peer, mac, true) == Header(link, peer) + Encode(ClientOptions(msg, mac))
  {
    var a, b := DhcpOption(OPTION_RELAY_MSG, msg), DhcpOption(OPTION_CLIENT_LINKLAYER_ADDR, Be16(1) + mac);
    EncodeTwo(a, b);
    OptionBytes(OPTION_RELAY_MSG, msg, |msg|);
    OptionBytes(OPTION_CLIENT_LINKLAYER_ADDR, Be16(1) + mac, 2 + 6);
    Associates(Header(link, peer), EncodeOption(a), Be16(OPTION_CLIENT_LINKLAYER_ADDR), Be16(2 + 6), Be16(1), mac);
  }

  lemma OptionBytes(code: nat, data: Bytes, n: nat)
    requires code < 0x1_0000 && |data| < 0x1_0000 && n == |data|
    ensures EncodeOption(DhcpOption(code, data)) == Be16(code) + Be16(n) + data
  {
  }

  /** With option 79 on, the Relay-Forward message is a header and exactly two options: the client's
      message and its link-layer address. */
  lemma ForwardIsTwoOptions(msg: Bytes, link: Bytes, peer: Bytes, mac: Bytes)
    requires |link| == |peer| == 16 && |mac| == 6 && |msg| < 0x1_0000
    ensures var b := Forward(msg, link, peer, mac, true);
            && b[0] == 12 && b[1] == 0 && b[2..18] == link && b[18..34] == peer && IsOptionList(b, 34)
            && Decode(b, 34) == [DhcpOption(9, msg), DhcpOption(79, [0, 1] + mac)]
  {
    ForwardIsEncoded(msg, link, peer, mac);
    DecodeEncode(Header(link, peer), ClientOptions(msg, mac));
    assert Forward(msg, link, peer, mac, true)[..HEADER] == Header(link, peer);
    assert Be16(1) == [0, 1];
  }

  /** Without option 79 the address bytes stand alone at the end: the message is a list of options only
      if those bytes happen to read as an option of length 2. */
  lemma ForwardIsOptionListExactly(msg: Bytes, link: Bytes, peer: Bytes, mac: Bytes, option79: bool)
    requires |link| == |peer| == 16 && |mac| == 6 && |msg| < 0x1_0000
    ensures IsOptionList(Forward(msg, link, peer, mac, option79), HEADER) <==> option79 || (mac[2] == 0 && mac[3] == 2)
  {
    if option79 {
      ForwardIsTwoOptions(msg, link, peer, mac);
    } else {
      ForwardIsBare(msg, link, peer, mac);
      OptionAndAddress(Header(link, peer), DhcpOption(OPTION_RELAY_MSG, msg), mac);
    }
  }

  lemma ForwardIsBare(msg: Bytes, link: Bytes, peer: Bytes, mac: Bytes)
    requires |msg| < 0x1_0000
    ensures Forward(msg, link, peer, mac, false) == Header(link, peer) + EncodeOption(DhcpOption(OPTION_RELAY_MSG, msg)) + mac
  {
    OptionBytes(OPTION_RELAY_MSG, msg, |msg|);
    NoMiddle(Header(link, peer) + EncodeOption(DhcpOption(OPTION_RELAY_MSG, msg)), mac);
  }

  lemma NoMiddle(a: Bytes, b: Bytes)
    ensures a + [] + b == a + b
  {
  }

  lemma OptionAndAddress(prefix: Bytes, o: DhcpOption, mac: Bytes)
    requires ValidOption(o) && |mac| == 6
    ensures IsOptionList(prefix + EncodeOption(o) + mac, |prefix|) <==> mac[2] == 0 && mac[3] == 2
  {
    FirstOption(prefix, o, mac);
    TrailingAddress(prefix + EncodeOption(o), mac);
  }

  lemma TrailingAddress(front: Bytes, mac: Bytes)
    requires |mac| == 6
    ensures IsOptionList(front + mac, |front|) <==> mac[2] == 0 && mac[3] == 2
  {
  }

  // ---- Unwrapping ----

  /** The contents of the relay message options, one after the other. */
  function Inner(os: seq<DhcpOption>): Bytes {
    if os == [] then []
    else (if os[0].code == OPTION_RELAY_MSG then os[0].data else []) + Inner(os[1..])
  }

  /** The step of the walk over the options, in memory that need not end where the message does. */
  function NextOption(mem: nat -> Byte, i: nat): nat { i + 4 + (256 * mem(i + 2) + mem(i + 3)) }

  function Walk(mem: nat -> Byte, i: nat, k: nat): nat
    decreases k
  {
    if k == 0 then i else Walk(mem, NextOption(mem, i), k - 1)
  }

  ghost predicate Reaches(mem: nat -> Byte, i: nat, end: nat) {
    exists k: nat :: Walk(mem, i, k) == end
  }

  lemma {:induction false} WalkAhead(mem: nat -> Byte, i: nat, k: nat)
    ensures Walk(mem, i, k) >= i
    decreases k
  {
    if k > 0 {
      WalkAhead(mem, NextOption(mem, i), k - 1);
    }
  }

  lemma ReachesStep(mem: nat -> Byte, i: nat, end: nat)
    ensures Reaches(mem, i, end) <==> i == end || Reaches(mem, NextOption(mem, i), end)
  {
    assert Walk(mem, i, 0) == i;
    if k: nat :| Walk(mem, NextOption(mem, i), k) == end {
      assert Walk(mem, i, k + 1) == end;
    }
    if k: nat :| Walk(mem, i, k) == end {
      assert k > 0 ==> Walk(mem, NextOption(mem, i), k - 1) == end;
    }
  }

  lemma NeverBack(mem: nat -> Byte, i: nat, end: nat)
    requires i > end
    ensures !Reaches(mem, i, end)
  {
    forall k: nat
      ensures Walk(mem, i, k) != end
    {
      WalkAhead(mem, i, k);
    }
  }

  /** The walk stops at the end of the message, whatever lies behind it, if and only if the message is a
      list of options. */
  lemma {:induction false} WalkStopsExactly(mem: nat -> Byte, b: Bytes, i: nat)
    requires forall k :: 0 <= k < |b| ==> b[k] == mem(k)
    ensures Reaches(mem, i, |b|) <==> IsOptionList(b, i)
    decreases |b| - i
  {
    var next := NextOption(mem, i);
    ReachesStep(mem, i, |b|);
    if i < |b| {
      if next <= |b| {
        assert OptionEnd(b, i) == next;
        WalkStopsExactly(mem, b, next);
      } else {
        NeverBack(mem, next, |b|);
      }
    } else if i > |b| {
      NeverBack(mem, i, |b|);
    }
  }

  /** Walks over the options of a Relay-Reply message and collects the relayed message in the buffer; the
      result goes to the peer address of the header. No result if the walk does not stop at the end of
      the message. */
  method RelayReply(buffer: array<Byte>, msg: Bytes) returns (peer: Option<Bytes>, n: nat)
    requires |msg| <= buffer.Length
    modifies buffer
    ensures peer.Some? <==> IsOptionList(msg, HEADER)
    ensures peer.Some? ==> peer.value == msg[18..34] && n <= buffer.Length && buffer[..n] == Inner(Decode(msg, HEADER))
  {
    n := 0;
    var position := HEADER;
    while position != |msg|
      invariant IsOptionList(msg, HEADER) <==> IsOptionList(msg, position)
      invariant position <= |msg| ==> HEADER <= position && n <= position
      invariant IsOptionList(msg, position) ==> n <= buffer.Length
      invariant IsOptionList(msg, position) ==> Inner(Decode(msg, HEADER)) == buffer[..n] + Inner(Decode(msg, position))
      decreases |msg| - position
    {
      if position + 4 > |msg| || OptionEnd(msg, position) > |msg| {
        return None, 0;
      }
      var end := OptionEnd(msg, position);
      if IsOptionList(msg, position) {
        InnerStep(msg, position, buffer[..n]);
      }
      if Half(msg, position) == OPTION_RELAY_MSG {
        n := Copy(buffer, n, msg[position + 4..end]);
      }
      position := end;
    }
    peer := Some(msg[18..34]);
  }

  lemma InnerStep(b: Bytes, i: nat, buffer: Bytes)
    requires i < |b| && IsOptionList(b, i)
    ensures var end := OptionEnd(b, i);
            buffer + Inner(Decode(b, i)) ==
              (if Half(b, i) == OPTION_RELAY_MSG then buffer + b[i + 4..end] else buffer) + Inner(Decode(b, end))
  {
  }

  lemma {:induction false} InnerConcat(a: seq<DhcpOption>, b: seq<DhcpOption>)
    ensures Inner(a + b) == Inner(a) + Inner(b)
  {
    if a == [] {
      assert a + b == b;
    } else {
      assert (a + b)[1..] == a[1..] + b;
      InnerConcat(a[1..], b);
    }
  }

  lemma {:induction false} InnerOfOthers(os: seq<DhcpOption>)
    requires forall k :: 0 <= k < |os| ==> os[k].code != OPTION_RELAY_MSG
    ensures Inner(os) == []
  {
    if os != [] {
      InnerOfOthers(os[1..]);
    }
  }

  lemma ValidMiddle(before: seq<DhcpOption>, o: DhcpOption, after: seq<DhcpOption>)
    requires ValidOptions(before) && ValidOption(o) && ValidOptions(after)
    ensures ValidOptions(before + [o] + after)
  {
  }

  /** The options of a Relay-Reply with one relay message option. */
  function Reply(before: seq<DhcpOption>, inner: Bytes, after: seq<DhcpOption>): (os: seq<DhcpOption>)
    requires |inner| < 0x1_0000 && ValidOptions(before) && ValidOptions(after)
    ensures ValidOptions(os)
  {
    ValidMiddle(before, DhcpOption(OPTION_RELAY_MSG, inner), after);
    before + [DhcpOption(OPTION_RELAY_MSG, inner)] + after
  }

  /** Unwrapping any Relay-Reply with one relay message option, among others and in any place, yields
      exactly the relayed bytes. */
  lemma UnwrapsExactlyInner(header: Bytes, before: seq<DhcpOption>, inner: Bytes, after: seq<DhcpOption>)
    requires |header| == HEADER && |inner| < 0x1_0000 && ValidOptions(before) && ValidOptions(after)
    requires forall k :: 0 <= k < |before| ==> before[k].code != OPTION_RELAY_MSG
    requires forall k :: 0 <= k < |after| ==> after[k].code != OPTION_RELAY_MSG
    ensures var msg := header + Encode(Reply(before, inner, after));
            IsOptionList(msg, HEADER) && Inner(Decode(msg, HEADER)) == inner
  {
    InnerOfOne(before, inner, after);
    DecodeEncode(header, Reply(before, inner, after));
  }

  lemma InnerOfMessage(inner: Bytes)
    ensures Inner([DhcpOption(OPTION_RELAY_MSG, inner)]) == inner
  {
    var os := [DhcpOption(OPTION_RELAY_MSG, inner)];
    assert os[1..] == [];
    assert inner + [] == inner;
  }

  lemma InnerOfOne(before: seq<DhcpOption>, inner: Bytes, after: seq<DhcpOption>)
    requires forall k :: 0 <= k < |before| ==> before[k].code != OPTION_RELAY_MSG
    requires forall k :: 0 <= k < |after| ==> after[k].code != OPTION_RELAY_MSG
    ensures Inner(before + [DhcpOption(OPTION_RELAY_MSG, inner)] + after) == inner
  {
    InnerOfOthers(before);
    InnerOfOthers(after);
    InnerOfThree(before, inner, after);
  }

  lemma InnerOfThree(before: seq<DhcpOption>, inner: Bytes, after: seq<DhcpOption>)
    requires Inner(before) == [] && Inner(after) == []
    ensures Inner(before + [DhcpOption(OPTION_RELAY_MSG, inner)] + after) == inner
  {
    var o := DhcpOption(OPTION_RELAY_MSG, inner);
    InnerConcat(before + [o], after);
    InnerConcat(before, [o]);
    InnerOfMessage(inner);
    assert [] + inner + [] == inner;
  }

  /** Round trip: what the relay wraps for the servers is what unwrapping the same options yields. */
  lemma UnwrapUndoesWrap(msg: Bytes, link: Bytes, peer: Bytes, mac: Bytes)
    requires |link| == |peer| == 16 && |mac| == 6 && |msg| < 0x1_0000
    ensures var b := Forward(msg, link, peer, mac, true);
            IsOptionList(b, HEADER) && Inner(Decode(b, HEADER)) == msg && b[18..34] == peer
  {
    ForwardIsTwoOptions(msg, link, peer, mac);
    var last := DhcpOption(OPTION_CLIENT_LINKLAYER_ADDR, Be16(1) + mac);
    InnerOfOne([], msg, [last]);
    assert ClientOptions(msg, mac) == [] + [DhcpOption(OPTION_RELAY_MSG, msg)] + [last];
    assert Forward(msg, link, peer, mac, true)[..HEADER][18..34] == Header(link, peer)[18..34] == peer;
  }
}
