/**
 The classic Berkeley packet filter and the two filter programs of the DHCP daemons.
 */
module Bpf {
  import opened Arithmetic
  import opened Octets

  type Packet = seq<Byte>

  /** An instruction as it is encoded: operation, relative jumps, constant. */
  datatype Insn = Insn(code: nat, jt: nat, jf: nat, k: nat)

  const LD_W_ABS := 0x20
  const LD_H_ABS := 0x28
  const LD_B_ABS := 0x30
  const LD_H_IND := 0x48
  const LDX_B_MSH := 0xb1
  const JEQ_K := 0x15
  const JSET_K := 0x45
  const RET_K := 0x06

  // ---- Loads ----

  datatype Load = Outside | Loaded(value: nat)

  function ByteAt(p: Packet, i: nat): Load {
    if i < |p| then Loaded(Octet(p, i)) else Outside
  }

  function HalfAt(p: Packet, i: nat): Load {
    if i + 1 < |p| then Loaded(Half(p, i)) else Outside
  }

  function WordAt(p: Packet, i: nat): Load {
    if i + 3 < |p| then
      Loaded(0x100_0000 * Octet(p, i) + 0x1_0000 * Octet(p, i + 1) + 256 * Octet(p, i + 2) + Octet(p, i + 3))
    else Outside
  }

  /** Two numbers have a common 1 bit. */
  predicate Shares(a: nat, b: nat) {
    if a == 0 || b == 0 then false else (a % 2 == 1 && b % 2 == 1) || Shares(a / 2, b / 2)
  }

  function Pow2(n: nat): nat { if n == 0 then 1 else 2 * Pow2(n - 1) }

  lemma {:induction false} SharesLowBits(a: nat, n: nat)
    ensures Pow2(n) > 0 && (Shares(a, Pow2(n) - 1) <==> a % Pow2(n) != 0)
  {
    if n > 0 && a > 0 {
      SharesLowBits(a / 2, n - 1);
      var m := Pow2(n - 1);
      assert (2 * m - 1) % 2 == 1 && (2 * m - 1) / 2 == m - 1;
      HalveMod(a, m);
    } else if n > 0 {
      SharesLowBits(0, n - 1);
    }
  }

  lemma HalveMod(a: nat, m: nat)
    requires m > 0
    ensures a % (2 * m) == 2 * ((a / 2) % m) + a % 2
  {
    var h := a / 2;
    var q, r := h / m, h % m;
    assert h == q * m + r;
    assert a == q * (2 * m) + (2 * r + a % 2) by {
      assert q * (2 * m) == 2 * (q * m);
    }
    ModUnique(a, q, 2 * r + a % 2, 2 * m);
  }

  // ---- The interpreter ----

  /** The value that a load instruction fetches. */
  function Fetch(i: Insn, x: nat, p: Packet): Load {
    if i.code == LD_W_ABS then WordAt(p, i.k)
    else if i.code == LD_H_ABS then HalfAt(p, i.k)
    else if i.code == LD_B_ABS || i.code == LDX_B_MSH then ByteAt(p, i.k)
    else if i.code == LD_H_IND then HalfAt(p, x + i.k)
    else Outside
  }

  predicate IsJump(i: Insn) { i.code == JEQ_K || i.code == JSET_K }

  /** The relative jump that a comparison takes. */
  function Jump(i: Insn, a: nat): nat {
    if (if i.code == JEQ_K then a == i.k else Shares(a, i.k)) then i.jt else i.jf
  }

  /** The number of bytes to accept; 0 rejects. A load outside the packet rejects. */
  function Exec(prog: seq<Insn>, pc: nat, a: nat, x: nat, p: Packet): nat
    decreases |prog| - pc
  {
    if pc >= |prog| then 0
    else
      var i := prog[pc];
      if i.code == RET_K then i.k
      else if IsJump(i) then Exec(prog, pc + 1 + Jump(i, a), a, x, p)
      else
        var v := Fetch(i, x, p);
        if v.Outside? then 0
        else if i.code == LDX_B_MSH then Exec(prog, pc + 1, a, 4 * (v.value % 16), p)
        else Exec(prog, pc + 1, v.value, x, p)
  }

  // ---- What the programs are for ----

  const IPV6 := 0x86dd
  const IPV4 := 0x0800
  const UDP := 17

  predicate Is(l: Load, v: nat) { l == Loaded(v) }

  predicate IsDhcpPort(l: Load) { l in {Loaded(67), Loaded(68), Loaded(546), Loaded(547)} }

  /** UDP over IPv6, from or to a DHCP port. */
  predicate HasDhcpOverIpv6(p: Packet) {
    Is(ByteAt(p, 20), UDP) && (IsDhcpPort(HalfAt(p, 54)) || IsDhcpPort(HalfAt(p, 56)))
  }

  /** UDP over IPv4, not a later fragment, from or to a DHCP port. */
  predicate HasDhcpOverIpv4(p: Packet) {
    && Is(ByteAt(p, 23), UDP) && HalfAt(p, 20).value % 0x2000 == 0
    && var header := 4 * (Octet(p, 14) % 16);
       IsDhcpPort(HalfAt(p, 14 + header)) || IsDhcpPort(HalfAt(p, 16 + header))
  }

  predicate IsDhcp(p: Packet) {
    (Is(HalfAt(p, 12), IPV6) && HasDhcpOverIpv6(p)) || (Is(HalfAt(p, 12), IPV4) && HasDhcpOverIpv4(p))
  }

  /** All_DHCP_Relay_Agents_and_Servers, section 7.1 of RFC 8415. */
  const RELAY_AGENTS: seq<Byte> := [0xff, 0x02, 0, 0, 0, 0, 0, 0, 0, 0, 0, 0, 0, 0x01, 0, 0x02]

  /** A UDP packet over IPv6 to the relay agents' address and port 547. */
  predicate IsForRelay(p: Packet) {
    && Is(HalfAt(p, 12), IPV6) && |p| >= 54 && p[38..54] == RELAY_AGENTS
    && Is(ByteAt(p, 20), UDP) && Is(HalfAt(p, 56), 547)
  }

  // ---- The programs ----

  const ACCEPT := 0x40000

  function DhcpProgram(): seq<Insn> {
    [ Insn(LD_H_ABS, 0, 0, 12), Insn(JEQ_K, 0, 9, 0x86dd), Insn(LD_B_ABS, 0, 0, 20), Insn(JEQ_K, 0, 24, 0x11),
      Insn(LD_H_ABS, 0, 0, 54), Insn(JEQ_K, 21, 0, 0x222), Insn(JEQ_K, 20, 0, 0x223), Insn(JEQ_K, 19, 0, 0x43),
      Insn(JEQ_K, 18, 0, 0x44), Insn(LD_H_ABS, 0, 0, 56), Insn(JEQ_K, 16, 13, 0x222), Insn(JEQ_K, 0, 16, 0x800),
      Insn(LD_B_ABS, 0, 0, 23), Insn(JEQ_K, 0, 14, 0x11), Insn(LD_H_ABS, 0, 0, 20), Insn(JSET_K, 12, 0, 0x1fff),
      Insn(LDX_B_MSH, 0, 0, 14), Insn(LD_H_IND, 0, 0, 14), Insn(JEQ_K, 8, 0, 0x222), Insn(JEQ_K, 7, 0, 0x223),
      Insn(JEQ_K, 6, 0, 0x43), Insn(JEQ_K, 5, 0, 0x44), Insn(LD_H_IND, 0, 0, 16), Insn(JEQ_K, 3, 0, 0x222),
      Insn(JEQ_K, 2, 0, 0x223), Insn(JEQ_K, 1, 0, 0x43), Insn(JEQ_K, 0, 1, 0x44), Insn(RET_K, 0, 0, ACCEPT),
      Insn(RET_K, 0, 0, 0) ]
  }

  function RelayProgram(): seq<Insn> {
    [ Insn(LD_H_ABS, 0, 0, 0x0c), Insn(JEQ_K, 0, 13, 0x86dd), Insn(LD_W_ABS, 0, 0, 0x26), Insn(JEQ_K, 0, 11, 0xff020000),
      Insn(LD_W_ABS, 0, 0, 0x2a), Insn(JEQ_K, 0, 9, 0), Insn(LD_W_ABS, 0, 0, 0x2e), Insn(JEQ_K, 0, 7, 0),
      Insn(LD_W_ABS, 0, 0, 0x32), Insn(JEQ_K, 0, 5, 0x00010002), Insn(LD_B_ABS, 0, 0, 0x14), Insn(JEQ_K, 0, 3, 0x11),
      Insn(LD_H_ABS, 0, 0, 0x38), Insn(JEQ_K, 0, 1, 0x223), Insn(RET_K, 0, 0, ACCEPT), Insn(RET_K, 0, 0, 0) ]
  }

  // ---- Single steps ----

  lemma JumpStep(prog: seq<Insn>, pc: nat, a: nat, x: nat, p: Packet)
    requires pc < |prog| && prog[pc].code == JEQ_K
    ensures Exec(prog, pc, a, x, p) == Exec(prog, pc + 1 + if a == prog[pc].k then prog[pc].jt else prog[pc].jf, a, x, p)
  {
  }

  lemma LoadStep(prog: seq<Insn>, pc: nat, a: nat, x: nat, p: Packet, v: Load)
    requires pc < |prog| && prog[pc].code in {LD_W_ABS, LD_H_ABS, LD_B_ABS, LD_H_IND} && v == Fetch(prog[pc], x, p)
    ensures Exec(prog, pc, a, x, p) == if v.Outside? then 0 else Exec(prog, pc + 1, v.value, x, p)
  {
  }

  /** A load and a comparison that goes on only if the value is the expected one. */
  lemma MustBe(prog: seq<Insn>, pc: nat, fail: nat, a: nat, x: nat, p: Packet, v: Load, k: nat)
    requires pc + 1 < fail < |prog| && prog[pc].code in {LD_W_ABS, LD_H_ABS, LD_B_ABS} && v == Fetch(prog[pc], x, p)
    requires prog[pc + 1] == Insn(JEQ_K, 0, fail - pc - 2, k) && prog[fail] == Insn(RET_K, 0, 0, 0)
    ensures Exec(prog, pc, a, x, p) == if Is(v, k) then Exec(prog, pc + 2, k, x, p) else 0
  {
    LoadStep(prog, pc, a, x, p, v);
    if v.Loaded? {
      JumpStep(prog, pc + 1, v.value, x, p);
    }
  }

  /** Four comparisons with the DHCP ports that jump to the same place. */
  ghost predicate ComparesPorts(prog: seq<Insn>, pc: nat, hit: nat) {
    && pc + 4 <= hit < |prog|
    && prog[pc] == Insn(JEQ_K, hit - pc - 1, 0, 0x222) && prog[pc + 1] == Insn(JEQ_K, hit - pc - 2, 0, 0x223)
    && prog[pc + 2] == Insn(JEQ_K, hit - pc - 3, 0, 0x43) && prog[pc + 3] == Insn(JEQ_K, hit - pc - 4, 0, 0x44)
  }

  lemma ComparePorts(prog: seq<Insn>, pc: nat, hit: nat, a: nat, x: nat, p: Packet)
    requires ComparesPorts(prog, pc, hit)
    ensures Exec(prog, pc, a, x, p) == Exec(prog, if a in {67, 68, 546, 547} then hit else pc + 4, a, x, p)
  {
    JumpStep(prog, pc, a, x, p);
    JumpStep(prog, pc + 1, a, x, p);
    JumpStep(prog, pc + 2, a, x, p);
    JumpStep(prog, pc + 3, a, x, p);
  }

  // ---- The DHCP program, from its end ----

  function Verdict(b: bool): nat { if b then ACCEPT else 0 }

  ghost predicate IsDhcpProgram(prog: seq<Insn>) { prog == DhcpProgram() }

  lemma DhcpReturns(prog: seq<Insn>, a: nat, x: nat, p: Packet)
    requires IsDhcpProgram(prog)
    ensures Exec(prog, 27, a, x, p) == ACCEPT && Exec(prog, 28, a, x, p) == 0
  {
  }

  /** The test of the second port, entered at its first or, for IPv6, at its second comparison. */
  lemma DhcpSecondPort(prog: seq<Insn>, a: nat, x: nat, p: Packet)
    requires IsDhcpProgram(prog)
    ensures Exec(prog, 10, a, x, p) == Exec(prog, 23, a, x, p) == Verdict(a in {67, 68, 546, 547})
  {
    DhcpReturns(prog, a, x, p);
    JumpStep(prog, 26, a, x, p);
    JumpStep(prog, 25, a, x, p);
    JumpStep(prog, 24, a, x, p);
    JumpStep(prog, 23, a, x, p);
    JumpStep(prog, 10, a, x, p);
  }

  /** Both port tests: two loads, each followed by comparisons. */
  lemma TwoPorts(prog: seq<Insn>, pc: nat, hit: nat, a: nat, x: nat, p: Packet, v: Load, w: Load)
    requires ComparesPorts(prog, pc + 1, hit) && pc + 5 < hit
    requires prog[pc].code in {LD_H_ABS, LD_H_IND} && v == Fetch(prog[pc], x, p)
    requires prog[pc + 5].code in {LD_H_ABS, LD_H_IND} && w == Fetch(prog[pc + 5], x, p)
    requires v.Loaded? ==> Exec(prog, hit, v.value, x, p) == ACCEPT
    requires w.Loaded? ==> Exec(prog, pc + 6, w.value, x, p) == Verdict(w.value in {67, 68, 546, 547})
    ensures Exec(prog, pc, a, x, p) == Verdict(IsDhcpPort(v) || (v.Loaded? && IsDhcpPort(w)))
  {
    LoadStep(prog, pc, a, x, p, v);
    if v.Loaded? {
      ComparePorts(prog, pc + 1, hit, v.value, x, p);
      LoadStep(prog, pc + 5, v.value, x, p, w);
    }
  }

  /** What follows the loads, whichever port is loaded. */
  lemma DhcpAfterLoads(prog: seq<Insn>, x: nat, p: Packet, v: Load, w: Load)
    requires IsDhcpProgram(prog)
    ensures v.Loaded? ==> Exec(prog, 27, v.value, x, p) == ACCEPT
    ensures w.Loaded? ==> Exec(prog, 10, w.value, x, p) == Exec(prog, 23, w.value, x, p) == Verdict(w.value in {67, 68, 546, 547})
  {
    if v.Loaded? {
      DhcpReturns(prog, v.value, x, p);
    }
    if w.Loaded? {
      DhcpSecondPort(prog, w.value, x, p);
    }
  }

  lemma DhcpIpv4Ports(prog: seq<Insn>, a: nat, x: nat, p: Packet)
    requires IsDhcpProgram(prog)
    ensures Exec(prog, 17, a, x, p) == Verdict(IsDhcpPort(HalfAt(p, x + 14)) || IsDhcpPort(HalfAt(p, x + 16)))
  {
    DhcpAfterLoads(prog, x, p, HalfAt(p, x + 14), HalfAt(p, x + 16));
    TwoPorts(prog, 17, 27, a, x, p, HalfAt(p, x + 14), HalfAt(p, x + 16));
  }

  lemma DhcpIpv6Ports(prog: seq<Insn>, a: nat, x: nat, p: Packet)
    requires IsDhcpProgram(prog)
    ensures Exec(prog, 4, a, x, p) == Verdict(IsDhcpPort(HalfAt(p, 54)) || IsDhcpPort(HalfAt(p, 56)))
  {
    DhcpAfterLoads(prog, x, p, HalfAt(p, 54), HalfAt(p, 56));
    TwoPorts(prog, 4, 27, a, x, p, HalfAt(p, 54), HalfAt(p, 56));
  }

  lemma DhcpIpv6(prog: seq<Insn>, a: nat, x: nat, p: Packet)
    requires IsDhcpProgram(prog)
    ensures Exec(prog, 2, a, x, p) == Verdict(HasDhcpOverIpv6(p))
  {
    MustBe(prog, 2, 28, a, x, p, ByteAt(p, 20), 17);
    DhcpIpv6Ports(prog, 17, x, p);
  }

  lemma LowThirteenBits(a: nat)
    ensures Shares(a, 0x1fff) <==> a % 0x2000 != 0
  {
    SharesLowBits(a, 13);
    assert Pow2(5) == 32;
    assert Pow2(10) == 1024;
    assert Pow2(13) == 0x2000;
  }

  /** The fragment test and the header length of IPv4. */
  lemma DhcpFragment(prog: seq<Insn>, a: nat, x: nat, p: Packet)
    requires IsDhcpProgram(prog) && |p| > 23
    ensures var header := 4 * (Octet(p, 14) % 16);
            Exec(prog, 14, a, x, p) == Verdict(HalfAt(p, 20).value % 0x2000 == 0
              && (IsDhcpPort(HalfAt(p, 14 + header)) || IsDhcpPort(HalfAt(p, 16 + header))))
  {
    var v, header := HalfAt(p, 20).value, 4 * (Octet(p, 14) % 16);
    LoadStep(prog, 14, a, x, p, HalfAt(p, 20));
    LowThirteenBits(v);
    DhcpReturns(prog, v, x, p);
    DhcpIpv4Ports(prog, v, header, p);
    assert prog[15] == Insn(JSET_K, 12, 0, 0x1fff) && prog[16] == Insn(LDX_B_MSH, 0, 0, 14);
    assert Exec(prog, 16, v, x, p) == Exec(prog, 17, v, header, p);
    assert Exec(prog, 15, v, x, p) == Exec(prog, 16 + if Shares(v, 0x1fff) then 12 else 0, v, x, p);
  }

  lemma DhcpIpv4(prog: seq<Insn>, a: nat, x: nat, p: Packet)
    requires IsDhcpProgram(prog)
    ensures Exec(prog, 12, a, x, p) == Verdict(HasDhcpOverIpv4(p))
  {
    MustBe(prog, 12, 28, a, x, p, ByteAt(p, 23), 17);
    if ByteAt(p, 23).Loaded? {
      DhcpFragment(prog, 17, x, p);
    }
  }

  lemma DhcpType(prog: seq<Insn>, a: nat, x: nat, p: Packet)
    requires IsDhcpProgram(prog)
    ensures Exec(prog, 1, a, x, p) == Verdict((a == IPV6 && HasDhcpOverIpv6(p)) || (a == IPV4 && HasDhcpOverIpv4(p)))
  {
    JumpStep(prog, 1, a, x, p);
    JumpStep(prog, 11, a, x, p);
    DhcpReturns(prog, a, x, p);
    DhcpIpv6(prog, a, x, p);
    DhcpIpv4(prog, a, x, p);
  }

  /** For every packet, the program of the DHCP monitor takes 0x40000 bytes of a DHCP packet and nothing of any
      other. */
  lemma DhcpProgramCorrect(p: Packet)
    ensures Exec(DhcpProgram(), 0, 0, 0, p) == if IsDhcp(p) then 0x40000 else 0
  {
    var v := HalfAt(p, 12);
    LoadStep(DhcpProgram(), 0, 0, 0, p, v);
    if v.Loaded? {
      DhcpType(DhcpProgram(), v.value, 0, p);
    }
  }

  // ---- The relay program ----

  lemma RelayTail(prog: seq<Insn>, a: nat, p: Packet)
    requires prog == RelayProgram()
    ensures Exec(prog, 10, a, 0, p) == Verdict(Is(ByteAt(p, 20), UDP) && Is(HalfAt(p, 56), 547))
  {
    MustBe(prog, 10, 15, a, 0, p, ByteAt(p, 20), 17);
    MustBe(prog, 12, 15, 17, 0, p, HalfAt(p, 56), 547);
  }

  lemma RelayAddressEnd(prog: seq<Insn>, a: nat, p: Packet)
    requires prog == RelayProgram()
    ensures Exec(prog, 6, a, 0, p) ==
      if Is(WordAt(p, 46), 0) && Is(WordAt(p, 50), 0x00010002) then Exec(prog, 10, 0x00010002, 0, p) else 0
  {
    MustBe(prog, 6, 15, a, 0, p, WordAt(p, 46), 0);
    MustBe(prog, 8, 15, 0, 0, p, WordAt(p, 50), 0x00010002);
  }

  lemma RelayAddress(prog: seq<Insn>, a: nat, p: Packet)
    requires prog == RelayProgram()
    ensures Exec(prog, 2, a, 0, p) == if AddressWords(p) then Exec(prog, 10, 0x00010002, 0, p) else 0
  {
    MustBe(prog, 2, 15, a, 0, p, WordAt(p, 38), 0xff020000);
    MustBe(prog, 4, 15, 0xff020000, 0, p, WordAt(p, 42), 0);
    RelayAddressEnd(prog, 0, p);
  }

  predicate AddressWords(p: Packet) {
    && Is(WordAt(p, 38), 0xff020000) && Is(WordAt(p, 42), 0) && Is(WordAt(p, 46), 0) && Is(WordAt(p, 50), 0x00010002)
  }

  lemma Unique8(a: nat, r: nat, b: nat, s: nat)
    requires r < 256 && s < 256
    ensures 256 * a + r == 256 * b + s <==> a == b && r == s
  {
  }

  lemma Unique16(a: nat, r: nat, b: nat, s: nat)
    requires r < 0x1_0000 && s < 0x1_0000
    ensures 0x1_0000 * a + r == 0x1_0000 * b + s <==> a == b && r == s
  {
  }

  lemma Unique24(a: nat, r: nat, b: nat, s: nat)
    requires r < 0x100_0000 && s < 0x100_0000
    ensures 0x100_0000 * a + r == 0x100_0000 * b + s <==> a == b && r == s
  {
  }

  predicate BytesAre(p: Packet, i: nat, a: nat, b: nat, c: nat, d: nat) {
    i + 3 < |p| && Octet(p, i) == a && Octet(p, i + 1) == b && Octet(p, i + 2) == c && Octet(p, i + 3) == d
  }

  lemma WordBytes(p: Packet, i: nat, a: nat, b: nat, c: nat, d: nat, word: nat)
    requires b < 256 && c < 256 && d < 256 && word == 0x100_0000 * a + (0x1_0000 * b + (256 * c + d))
    ensures Is(WordAt(p, i), word) <==> BytesAre(p, i, a, b, c, d)
  {
    if i + 3 < |p| {
      var x, y, z, w := Octet(p, i), Octet(p, i + 1), Octet(p, i + 2), Octet(p, i + 3);
      Unique24(x, 0x1_0000 * y + (256 * z + w), a, 0x1_0000 * b + (256 * c + d));
      Unique16(y, 256 * z + w, b, 256 * c + d);
      Unique8(z, w, c, d);
    }
  }

  lemma AddressBytes(p: Packet)
    ensures AddressWords(p) <==> |p| >= 54 && p[38..54] == RELAY_AGENTS
  {
    WordBytes(p, 38, 0xff, 0x02, 0, 0, 0xff020000);
    WordBytes(p, 42, 0, 0, 0, 0, 0);
    WordBytes(p, 46, 0, 0, 0, 0, 0);
    WordBytes(p, 50, 0, 0x01, 0, 0x02, 0x00010002);
    AddressAt(p);
  }

  lemma AddressAt(p: Packet)
    ensures (BytesAre(p, 38, 0xff, 0x02, 0, 0) && BytesAre(p, 42, 0, 0, 0, 0) &&
             BytesAre(p, 46, 0, 0, 0, 0) && BytesAre(p, 50, 0, 0x01, 0, 0x02))
       <==> |p| >= 54 && p[38..54] == RELAY_AGENTS
  {
    if |p| >= 54 {
      assert p[38..54] == [p[38], p[39], p[40], p[41], p[42], p[43], p[44], p[45],
                            p[46], p[47], p[48], p[49], p[50], p[51], p[52], p[53]];
    }
  }

  /** For every packet, the program of the relay takes 0x40000 bytes of a packet for it and nothing of any other. */
  lemma RelayProgramCorrect(p: Packet)
    ensures Exec(RelayProgram(), 0, 0, 0, p) == if IsForRelay(p) then 0x40000 else 0
  {
    var prog := RelayProgram();
    MustBe(prog, 0, 15, 0, 0, p, HalfAt(p, 12), IPV6);
    RelayAddress(prog, IPV6, p);
    RelayTail(prog, 0x00010002, p);
    AddressBytes(p);
  }
}
