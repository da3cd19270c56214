/** src/inet6.c as it stands: frames built in a pool buffer and received in place. */
module Inet6Stack {
  import opened Bytes
  import opened Checksum
  import opened Inet6
  import opened BufferPool
  import opened NetIfc

  /** memcpy(p + at, d, |d|), where p[from..at] is what has been written so far. */
  method Emit(p: array<byte>, from: nat, at: nat, d: seq<byte>)
    requires from <= at && at + |d| <= p.Length
    modifies p
    ensures p[from..at + |d|] == old(p[from..at]) + d
  {
    Memcpy(p, at, d);
    assert p[from..at + |d|] == p[..][from..at + |d|];
  }

  /**
   * The two checksum calls of ip6_checksum and of the receivers: length field with the swapped
   * protocol number, then addresses and body.
   */
  method PacketSum(p: array<byte>, ip: nat, next: byte, n: uint16) returns (sum: uint16)
    requires ip + IP6_HDR_LEN + n <= p.Length && p[ip + 4..ip + 6] == BigEndian16(n)
    ensures sum == PseudoSum(p[ip + 8..ip + 40], n, next, p[ip + 40..ip + 40 + n])
  {
    sum := Checksum.Checksum(p, ip + 4, 2, Swap16(next));
    sum := Checksum.Checksum(p, ip + 8, 32 + n, sum);
    ghost var addrs, body := p[ip + 8..ip + 40], p[ip + 40..ip + 40 + n];
    assert p[ip + 8..ip + 8 + 32 + n] == addrs + body;
    TwoCallsArePseudoSum(addrs, n, next, body);
  }

  lemma SpliceSlice(s: seq<byte>, off: nat, d: seq<byte>, lo: nat, hi: nat)
    requires off + |d| <= |s| && lo <= off && off + |d| <= hi <= |s|
    ensures Splice(s, off, d)[lo..hi] == Splice(s[lo..hi], off - lo, d)
  {
  }

  lemma NormalizeApart(b: seq<byte>, at: nat, lo: nat, hi: nat)
    requires at + 2 <= |b| && lo <= hi <= |b| && (hi <= at || at + 2 <= lo)
    ensures Normalize(b, at)[lo..hi] == b[lo..hi]
  {
  }

  lemma LengthField(f: seq<byte>, n: uint16)
    requires 20 <= |f| && Be16(f, 18) == n
    ensures f[18..20] == BigEndian16(n)
  {
  }

  lemma UdpFrameChecksum(dmac: Mac, smac: Mac, src: Ip6, dst: Ip6, sport: uint16, dport: uint16, ck: uint16,
                         payload: seq<byte>)
    requires |payload| <= UDP6_MAX_PAYLOAD
    ensures |UdpSegment(sport, dport, 0, payload)| == UDP_HDR_LEN + |payload|
    ensures Splice(Frame(dmac, smac, src, dst, HDR_UDP, UdpSegment(sport, dport, 0, payload)), 60, Le16(ck))
            == Frame(dmac, smac, src, dst, HDR_UDP, UdpSegment(sport, dport, ck, payload))
  {
    var s0, s1 := UdpSegment(sport, dport, 0, payload), UdpSegment(sport, dport, ck, payload);
    SegmentFields(sport, dport, 0, payload);
    SegmentFields(sport, dport, ck, payload);
    var head := dmac + smac + [0x86, 0xDD] + IpHeader(src, dst, |s0|, HDR_UDP);
    assert Frame(dmac, smac, src, dst, HDR_UDP, s0) == head + s0;
    assert Frame(dmac, smac, src, dst, HDR_UDP, s1) == head + s1;
    assert s1 == s0[..6] + Le16(ck) + s0[8..];
  }

  lemma IcmpFrameChecksum(dmac: Mac, smac: Mac, src: Ip6, dst: Ip6, ck: uint16, data: seq<byte>, tail: seq<byte>)
    requires |data| <= ICMP6_MAX_PAYLOAD && |data| + |tail| >= 4
    ensures |WithChecksum(data, ck)| == |data|
    ensures Splice(Frame(dmac, smac, src, dst, HDR_ICMP6, data) + tail, 56, Le16(ck))[..54 + |data|]
            == Frame(dmac, smac, src, dst, HDR_ICMP6, WithChecksum(data, ck))
  {
    var head := dmac + smac + [0x86, 0xDD] + IpHeader(src, dst, |data|, HDR_ICMP6);
    var body := WithChecksum(data, ck);
    assert Frame(dmac, smac, src, dst, HDR_ICMP6, data) == head + data;
    assert Frame(dmac, smac, src, dst, HDR_ICMP6, body) == head + body;
    assert Splice(head + data + tail, 56, Le16(ck)) == head + Splice(data + tail, 2, Le16(ck));
    assert Splice(data + tail, 2, Le16(ck))[..|data|] == body;
  }

  /** Storing the checksum into a buffer that holds the frame with a zero checksum. */
  lemma PatchUdp(p: seq<byte>, dmac: Mac, smac: Mac, src: Ip6, dst: Ip6, sport: uint16, dport: uint16, ck: uint16,
                 data: seq<byte>)
    requires |p| == ETH_BUFFER_SIZE && |data| <= UDP6_MAX_PAYLOAD
    requires p[2..64 + |data|] == Frame(dmac, smac, src, dst, HDR_UDP, UdpSegment(sport, dport, 0, data))
    ensures Splice(p, 62, Le16(ck))[2..64 + |data|]
            == Frame(dmac, smac, src, dst, HDR_UDP, UdpSegment(sport, dport, ck, data))
  {
    UdpFrameChecksum(dmac, smac, src, dst, sport, dport, ck, data);
    SpliceSlice(p, 62, Le16(ck), 2, 64 + |data|);
  }

  lemma PatchIcmp(p: seq<byte>, dmac: Mac, smac: Mac, src: Ip6, dst: Ip6, ck: uint16, data: seq<byte>)
    requires |p| == ETH_BUFFER_SIZE && |data| <= ICMP6_MAX_PAYLOAD
    requires p[2..56 + |data|] == Frame(dmac, smac, src, dst, HDR_ICMP6, data)
    ensures |WithChecksum(data, ck)| == |data|
    ensures Splice(p, 58, Le16(ck))[2..56 + |data|]
            == Frame(dmac, smac, src, dst, HDR_ICMP6, WithChecksum(data, ck))
  {
    var tail := p[56 + |data|..] + [0, 0];
    IcmpFrameChecksum(dmac, smac, src, dst, ck, data, tail);
    var f := Frame(dmac, smac, src, dst, HDR_ICMP6, data);
    var q := p + [0, 0];
    assert q[2..] == f + tail;
    SpliceSlice(q, 58, Le16(ck), 2, |q|);
    assert Splice(p, 58, Le16(ck))[2..56 + |data|] == Splice(q, 58, Le16(ck))[2..56 + |data|];
    assert Splice(q, 58, Le16(ck))[2..56 + |data|] == Splice(q, 58, Le16(ck))[2..][..54 + |data|];
  }

  class Inet6Stack {
    var mac: Mac
    var ip: Ip6
    var snm: Ip6
    var rxMac: Mac
    var rxIp: Ip6

    function State(): Stack
      reads this
    {
      Stack(mac, ip, snm, rxMac, rxIp)
    }

    /** ip6_init, and the zeroed reply cache. */
    constructor (m: Mac)
      ensures State() == Stack(m, LinkLocal(m), SolicitedNode(m), [0, 0, 0, 0, 0, 0],
                               [0, 0, 0, 0, 0, 0, 0, 0, 0, 0, 0, 0, 0, 0, 0, 0])
    {
      mac, ip, snm := m, LinkLocal(m), SolicitedNode(m);
      rxMac := [0, 0, 0, 0, 0, 0];
      rxIp := [0, 0, 0, 0, 0, 0, 0, 0, 0, 0, 0, 0, 0, 0, 0, 0];
    }

    method ResolveIp6(a: Ip6) returns (m: Option<Mac>)
      ensures m == Resolve(State(), a)
    {
      if a[0] == 0xFF {
        return Some(MulticastMac(a));
      }
      if a == rxIp {
        return Some(rxMac);
      }
      return None;
    }

    static method EthHeader(st: Stack, p: array<byte>, dmac: Mac)
      requires p.Length == ETH_BUFFER_SIZE
      modifies p
      ensures p[2..16] == dmac + st.mac + [0x86, 0xDD]
    {
      Emit(p, 2, 2, dmac);
      Emit(p, 2, 8, st.mac);
      Emit(p, 2, 14, [0x86, 0xDD]);
    }

    /** ip6_setup once the address is resolved: both headers, from byte 2 of the buffer on. */
    static method Headers(st: Stack, p: array<byte>, dmac: Mac, daddr: Ip6, length: uint16, next: byte)
      requires p.Length == ETH_BUFFER_SIZE
      modifies p
      ensures p[2..56] == dmac + st.mac + [0x86, 0xDD] + IpHeader(st.ip, daddr, length, next)
    {
      EthHeader(st, p, dmac);
      ghost var eth := p[2..16];
      Emit(p, 2, 16, [0x60, 0, 0, 0]);
      Emit(p, 2, 20, BigEndian16(length));
      Emit(p, 2, 22, [next, 255]);
      Emit(p, 2, 24, st.ip);
      Emit(p, 2, 40, daddr);
      assert p[2..56] == eth + IpHeader(st.ip, daddr, length, next);
    }

    /** Headers and body are in place: the checksum of the body, as ip6_checksum returns it. */
    static method Ip6Checksum(st: Stack, p: array<byte>, dmac: Mac, daddr: Ip6, next: byte,
                              ghost body: seq<byte>, n: uint16)
      returns (ck: uint16)
      requires p.Length == ETH_BUFFER_SIZE && n == |body| <= ICMP6_MAX_PAYLOAD
      requires p[2..56 + n] == Frame(dmac, st.mac, st.ip, daddr, next, body)
      ensures ck == WireChecksum(PseudoSum(st.ip + daddr, n, next, body))
    {
      ghost var f := p[2..56 + n];
      FrameFields(dmac, st.mac, st.ip, daddr, next, body, []);
      assert f + [] == f;
      ghost var all := p[..];
      assert all[2..2 + |f|] == f;
      SubSlice(all, 2, f, 18, 20);
      SubSlice(all, 2, f, 22, 54);
      SubSlice(all, 2, f, 54, 54 + n);
      LengthField(f, n);
      var sum := PacketSum(p, 16, next, n);
      ck := if sum != 0xFFFF then 0xFFFF - sum else sum;
    }

    /** udp6_send from the headers to the checksum. */
    static method BuildUdp(st: Stack, p: array<byte>, dmac: Mac, data: seq<byte>, daddr: Ip6,
                           dport: uint16, sport: uint16)
      requires p.Length == ETH_BUFFER_SIZE && |data| <= UDP6_MAX_PAYLOAD
      modifies p
      ensures |UdpFrame(st, dmac, data, daddr, dport, sport)| == 62 + |data|
      ensures p[2..64 + |data|] == UdpFrame(st, dmac, data, daddr, dport, sport)
    {
      var length := |data| + UDP_HDR_LEN;
      Headers(st, p, dmac, daddr, length, HDR_UDP);
      ghost var head := p[2..56];
      Emit(p, 2, 56, BigEndian16(sport));
      Emit(p, 2, 58, BigEndian16(dport));
      Emit(p, 2, 60, BigEndian16(length));
      Emit(p, 2, 62, Le16(0));
      Emit(p, 2, 64, data);
      ghost var s0 := UdpSegment(sport, dport, 0, data);
      assert p[2..56 + length] == head + s0;
      var ck := Ip6Checksum(st, p, dmac, daddr, HDR_UDP, s0, length);
      PatchUdp(p[..], dmac, st.mac, st.ip, daddr, sport, dport, ck, data);
      Memcpy(p, 62, Le16(ck));
      assert p[2..56 + length] == p[..][2..56 + length];
    }

    /** icmp6_send from the headers to the checksum. */
    static method BuildIcmp(st: Stack, p: array<byte>, dmac: Mac, data: seq<byte>, daddr: Ip6)
      requires p.Length == ETH_BUFFER_SIZE && |data| <= ICMP6_MAX_PAYLOAD
      modifies p
      ensures |IcmpFrame(st, dmac, data, daddr)| == 54 + |data|
      ensures p[2..56 + |data|] == IcmpFrame(st, dmac, data, daddr)
    {
      Headers(st, p, dmac, daddr, |data|, HDR_ICMP6);
      Emit(p, 2, 56, data);
      var ck := Ip6Checksum(st, p, dmac, daddr, HDR_ICMP6, data, |data|);
      PatchIcmp(p[..], dmac, st.mac, st.ip, daddr, ck, data);
      Memcpy(p, 58, Le16(ck));
      assert p[2..56 + |data|] == p[..][2..56 + |data|];
    }

    /** udp6_send; wire is the frame handed to the NIC, if it took one. */
    method Udp6Send(ifc: NetIfc, data: seq<byte>, daddr: Ip6, dport: uint16, sport: uint16, txOk: bool)
      returns (r: int, wire: Option<seq<byte>>)
      requires ifc.Layout() && ifc.Whole()
      modifies ifc`ethBuffers, ifc`free, ifc`nic, ifc.slots`next, set b | b in ifc.slots :: b.data
      ensures ifc.Whole()
      ensures var setupOk := |data| <= 1452 && Resolve(State(), daddr).Some?;
              && ifc.View() == Step(old(ifc.View()), Send(setupOk, txOk))
              && (r == 0 <==> old(ifc.free) != [] && setupOk && txOk)
              && wire == (if r != 0 then None
                          else Some(UdpFrame(State(), Resolve(State(), daddr).value, data, daddr, dport, sport)))
    {
      r, wire := -1, None;
      ghost var pool := ifc.View();
      var b := ifc.Take();
      if b.Some? {
        r, wire := FillUdp(ifc, b.value, data, daddr, dport, sport, txOk, pool);
      }
    }

    /** The checks on a buffer in hand; both failures put it back. */
    method FillUdp(ifc: NetIfc, b: EthBuffer, data: seq<byte>, daddr: Ip6, dport: uint16, sport: uint16,
                   txOk: bool, ghost pool: Pool)
      returns (r: int, wire: Option<seq<byte>>)
      requires ifc.Layout() && ifc.Holding(b, pool)
      modifies ifc`ethBuffers, ifc`free, ifc`nic, ifc.slots`next, b.data
      ensures ifc.Whole()
      ensures var setupOk := |data| <= UDP6_MAX_PAYLOAD && Resolve(State(), daddr).Some?;
              && ifc.View() == Step(pool, Send(setupOk, txOk))
              && (r == 0 <==> setupOk && txOk)
              && wire == (if r != 0 then None
                          else Some(UdpFrame(State(), Resolve(State(), daddr).value, data, daddr, dport, sport)))
    {
      r, wire := -1, None;
      var m := ResolveIp6(daddr);
      if |data| > UDP6_MAX_PAYLOAD || m.None? {
        ifc.GiveBack(b, txOk, pool);
      } else {
        r, wire := SendUdp(State(), ifc, b, m.value, data, daddr, dport, sport, txOk, pool);
      }
    }

    static method SendUdp(st: Stack, ifc: NetIfc, b: EthBuffer, dmac: Mac, data: seq<byte>, daddr: Ip6,
                          dport: uint16, sport: uint16, txOk: bool, ghost pool: Pool)
      returns (r: int, wire: Option<seq<byte>>)
      requires ifc.Layout() && ifc.Holding(b, pool) && |data| <= UDP6_MAX_PAYLOAD
      modifies ifc`ethBuffers, ifc`free, ifc`nic, ifc.slots`next, b.data
      ensures ifc.Whole() && ifc.View() == Step(pool, Send(true, txOk))
      ensures r == (if txOk then 0 else -1)
      ensures wire == if txOk then Some(UdpFrame(st, dmac, data, daddr, dport, sport)) else None
    {
      BuildUdp(st, b.data, dmac, data, daddr, dport, sport);
      r, wire := ifc.HandOver(b, 62 + |data|, txOk, pool);
    }

    /** The checks on a buffer in hand; both failures put it back. */
    method FillIcmp(ifc: NetIfc, b: EthBuffer, data: seq<byte>, daddr: Ip6, txOk: bool, ghost pool: Pool)
      returns (r: int, wire: Option<seq<byte>>)
      requires ifc.Layout() && ifc.Holding(b, pool)
      modifies ifc`ethBuffers, ifc`free, ifc`nic, ifc.slots`next, b.data
      ensures ifc.Whole()
      ensures var setupOk := |data| <= ICMP6_MAX_PAYLOAD && Resolve(State(), daddr).Some?;
              && ifc.View() == Step(pool, Send(setupOk, txOk))
              && (r == 0 <==> setupOk && txOk)
              && wire == (if r == 0 then Some(IcmpFrame(State(), Resolve(State(), daddr).value, data, daddr)) else None)
    {
      r, wire := -1, None;
      var m := ResolveIp6(daddr);
      if |data| > ICMP6_MAX_PAYLOAD || m.None? {
        ifc.GiveBack(b, txOk, pool);
      } else {
        r, wire := SendIcmp(State(), ifc, b, m.value, data, daddr, txOk, pool);
      }
    }

    static method SendIcmp(st: Stack, ifc: NetIfc, b: EthBuffer, dmac: Mac, data: seq<byte>, daddr: Ip6,
                    txOk: bool, ghost pool: Pool) returns (r: int, wire: Option<seq<byte>>)
      requires ifc.Layout() && ifc.Holding(b, pool) && |data| <= ICMP6_MAX_PAYLOAD
      modifies ifc`ethBuffers, ifc`free, ifc`nic, ifc.slots`next, b.data
      ensures ifc.Whole() && ifc.View() == Step(pool, Send(true, txOk))
      ensures r == (if txOk then 0 else -1)
      ensures wire == if txOk then Some(IcmpFrame(st, dmac, data, daddr)) else None
    {
      BuildIcmp(st, b.data, dmac, data, daddr);
      r, wire := ifc.HandOver(b, 54 + |data|, txOk, pool);
    }

    /** icmp6_send */
    method Icmp6Send(ifc: NetIfc, data: seq<byte>, daddr: Ip6, txOk: bool)
      returns (r: int, wire: Option<seq<byte>>)
      requires ifc.Layout() && ifc.Whole()
      modifies ifc`ethBuffers, ifc`free, ifc`nic, ifc.slots`next, set b | b in ifc.slots :: b.data
      ensures ifc.Whole()
      ensures var setupOk := |data| <= 1460 && Resolve(State(), daddr).Some?;
              && ifc.View() == Step(old(ifc.View()), Send(setupOk, txOk))
              && (r == 0 <==> old(ifc.free) != [] && setupOk && txOk)
              && wire == (if r == 0 then Some(IcmpFrame(State(), Resolve(State(), daddr).value, data, daddr)) else None)
    {
      r, wire := -1, None;
      ghost var pool := ifc.View();
      var b := ifc.Take();
      if b.Some? {
        r, wire := FillIcmp(ifc, b.value, data, daddr, txOk, pool);
      }
    }

    // --- receiving, in place in the 1514-byte buffer of netifc_poll ---

    /** if (checksum == 0xFFFF) checksum = 0 */
    static method ClearOnes(buf: array<byte>, at: nat)
      requires at + 2 <= buf.Length
      modifies buf
      ensures buf[..] == Normalize(old(buf[..]), at)
    {
      if Word16(buf[at], buf[at + 1]) == 0xFFFF {
        buf[at], buf[at + 1] := 0, 0;
        assert buf[..] == Splice(old(buf[..]), at, [0, 0]);
      }
    }

    /** The checksum test both receivers make. */
    static method TestSum(buf: array<byte>, n: uint16, next: byte) returns (ok: bool)
      requires 54 + n <= buf.Length && buf[18..20] == BigEndian16(n)
      ensures ok == SumOk(buf[..], n, next)
    {
      var sum := PacketSum(buf, 14, next, n);
      assert buf[22..54] == buf[..][22..54] && buf[54..54 + n] == buf[..][54..54 + n];
      return sum == 0xFFFF;
    }

    static method UdpRecv(buf: array<byte>, n: uint16) returns (act: Action)
      requires 54 + n <= buf.Length && buf[18..20] == BigEndian16(n)
      modifies buf
      ensures act == Inet6.UdpRecv(old(buf[..]), n)
    {
      if n < UDP_HDR_LEN {
        return Drop;
      }
      if Word16(buf[60], buf[61]) == 0 {
        return Drop;
      }
      ClearOnes(buf, 60);
      ghost var b := buf[..];
      NormalizeApart(old(buf[..]), 60, 18, 20);
      NormalizeApart(old(buf[..]), 60, 22, 38);
      NormalizeApart(old(buf[..]), 60, 38, 54);
      assert buf[18..20] == b[18..20];
      var ok := TestSum(buf, n, HDR_UDP);
      if !ok {
        return Drop;
      }
      var m := Word16(buf[59], buf[58]);
      assert m == Be16(old(buf[..]), 58);
      if m < UDP_HDR_LEN || m > n {
        return Drop;
      }
      act := Deliver(buf[62..54 + m], buf[38..54], Word16(buf[57], buf[56]), buf[22..38], Word16(buf[55], buf[54]));
      NormalizeApart(old(buf[..]), 60, 62, 54 + m);
      assert buf[62..54 + m] == b[62..54 + m] && buf[38..54] == b[38..54] && buf[22..38] == b[22..38];
    }

    method IcmpRecv(buf: array<byte>, n: uint16) returns (act: Action)
      requires buf.Length == ETH_MTU && 54 + n <= buf.Length && buf[18..20] == BigEndian16(n)
      modifies buf
      ensures act == Inet6.IcmpRecv(State(), old(buf[..]), n)
    {
      if Word16(buf[56], buf[57]) == 0 {
        return Drop;
      }
      ClearOnes(buf, 56);
      ghost var b := buf[..];
      NormalizeApart(old(buf[..]), 56, 18, 20);
      assert buf[18..20] == b[18..20];
      var ok := TestSum(buf, n, HDR_ICMP6);
      if !ok {
        return Drop;
      }
      if buf[54] == ICMP6_NDP_N_SOLICIT {
        if n < 24 || buf[55] != 0 || buf[62..78] != ip {
          return Drop;
        }
        return Reply(NdpAdvert(State()), buf[22..38]);
      }
      if buf[54] == ICMP6_ECHO_REQUEST {
        buf[56], buf[57] := 0, 0;
        assert buf[..] == Splice(b, 56, [0, 0]);
        buf[54] := ICMP6_ECHO_REPLY;
        assert buf[..] == Splice(Splice(b, 56, [0, 0]), 54, [ICMP6_ECHO_REPLY]);
        act := Reply(buf[54..54 + n], buf[22..38]);
        assert buf[54..54 + n] == buf[..][54..54 + n] && buf[22..38] == b[22..38];
        return;
      }
      return Drop;
    }

    /** eth_recv on a frame of len bytes. */
    method EthRecv(buf: array<byte>, len: nat) returns (act: Action)
      requires buf.Length == ETH_MTU && len <= ETH_MTU
      modifies this`rxMac, this`rxIp, buf
      ensures (State(), act) == Inet6.EthRecv(old(State()), old(buf[..]), len)
    {
      ghost var b := buf[..];
      if len < ETH_HDR_LEN + IP6_HDR_LEN {
        return Drop;
      }
      if buf[12] != 0x86 || buf[13] != 0xDD {
        return Drop;
      }
      if buf[14] / 0x10 != 6 {
        return Drop;
      }
      var n := Word16(buf[19], buf[18]);
      if n > len - (ETH_HDR_LEN + IP6_HDR_LEN) {
        return Drop;
      }
      assert buf[38..54] == b[38..54] && buf[6..12] == b[6..12] && buf[22..38] == b[22..38];
      if ip != buf[38..54] && snm != buf[38..54] {
        return Drop;
      }
      rxMac := buf[6..12];
      rxIp := buf[22..38];
      LengthField(b, n);
      assert buf[18..20] == b[18..20];
      if buf[20] == HDR_ICMP6 {
        act := IcmpRecv(buf, n);
      } else if buf[20] == HDR_UDP {
        act := UdpRecv(buf, n);
      } else {
        act := Drop;
      }
    }

    /**
     * One received frame, reply included: whatever is answered reaches the wire, addressed to
     * where the frame came from, if the pool has a buffer and the NIC takes it.
     */
    method Receive(ifc: NetIfc, buf: array<byte>, len: nat, txOk: bool)
      returns (act: Action, wire: Option<seq<byte>>)
      requires ifc.Layout() && ifc.Whole() && buf.Length == ETH_MTU && len <= ETH_MTU
      requires forall b :: b in ifc.slots ==> buf != b.data
      modifies this`rxMac, this`rxIp, buf
      modifies ifc`ethBuffers, ifc`free, ifc`nic, ifc.slots`next, set b | b in ifc.slots :: b.data
      ensures ifc.Whole()
      ensures (State(), act) == Inet6.EthRecv(old(State()), old(buf[..]), len)
      ensures act.Reply? ==>
                && |act.data| <= ICMP6_MAX_PAYLOAD
                && ifc.View() == Step(old(ifc.View()), Send(true, txOk))
                && wire == if old(ifc.free) != [] && txOk
                           then Some(IcmpFrame(State(), ReplyMac(old(buf[..])), act.data, act.to)) else None
      ensures !act.Reply? ==> ifc.View() == old(ifc.View()) && wire == None
    {
      ghost var st, f := State(), buf[..];
      act := Dispatch(ifc, buf, len);
      if act.Reply? {
        wire := Answer(ifc, act, txOk, st, f, len);
      } else {
        wire := None;
      }
    }

    /** Receive dispatch does not touch the transmit buffers. */
    method Dispatch(ghost ifc: NetIfc, buf: array<byte>, len: nat) returns (act: Action)
      requires ifc.Whole() && buf.Length == ETH_MTU && len <= ETH_MTU
      modifies this`rxMac, this`rxIp, buf
      ensures ifc.Whole() && ifc.View() == old(ifc.View())
      ensures (State(), act) == Inet6.EthRecv(old(State()), old(buf[..]), len)
    {
      act := EthRecv(buf, len);
    }

    /** icmp6_send of the answer to the frame f that has just been received. */
    method Answer(ifc: NetIfc, act: Action, txOk: bool, ghost st: Stack, ghost f: seq<byte>, ghost len: nat)
      returns (wire: Option<seq<byte>>)
      requires ifc.Layout() && ifc.Whole() && |f| == ETH_MTU && len <= ETH_MTU
      requires act.Reply? && (State(), act) == Inet6.EthRecv(st, f, len)
      modifies ifc`ethBuffers, ifc`free, ifc`nic, ifc.slots`next, set b | b in ifc.slots :: b.data
      ensures ifc.Whole() && ifc.View() == Step(old(ifc.View()), Send(true, txOk))
      ensures |act.data| <= ICMP6_MAX_PAYLOAD
      ensures wire == if old(ifc.free) != [] && txOk then Some(IcmpFrame(State(), ReplyMac(f), act.data, act.to))
                      else None
    {
      ReplyRouting(st, f, len);
      var r;
      r, wire := Icmp6Send(ifc, act.data, act.to, txOk);
    }
  }
}
