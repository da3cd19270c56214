/** The IPv6/UDP/ICMPv6 stack of src/inet6.c: what frames mean when sent and when received. */
module Inet6 {
  import opened Bytes
  import opened Checksum

  const ETH_HDR_LEN: nat := 14
  const ETH_MTU: nat := 1514
  const IP6_HDR_LEN: nat := 40
  const UDP_HDR_LEN: nat := 8
  const UDP6_MAX_PAYLOAD: nat := ETH_MTU - ETH_HDR_LEN - IP6_HDR_LEN - UDP_HDR_LEN
  const ICMP6_MAX_PAYLOAD: nat := ETH_MTU - ETH_HDR_LEN - IP6_HDR_LEN

  const HDR_UDP: byte := 17
  const HDR_ICMP6: byte := 58

  const ICMP6_ECHO_REQUEST: byte := 128
  const ICMP6_ECHO_REPLY: byte := 129
  const ICMP6_NDP_N_SOLICIT: byte := 135
  const ICMP6_NDP_N_ADVERTISE: byte := 136
  const NDP_N_TGT_LL_ADDR: byte := 2

  type Mac = s: seq<byte> | |s| == 6 witness [0, 0, 0, 0, 0, 0]
  type Ip6 = s: seq<byte> | |s| == 16 witness [0, 0, 0, 0, 0, 0, 0, 0, 0, 0, 0, 0, 0, 0, 0, 0]

  /** ll_mac_addr, ll_ip6_addr, snm_ip6_addr and the one-entry reply cache. */
  datatype Stack = Stack(mac: Mac, ip: Ip6, snm: Ip6, rxMac: Mac, rxIp: Ip6)

  function FlipBit1(b: byte): byte {
    if (b / 2) % 2 == 1 then b - 2 else b + 2
  }

  function LinkLocal(m: Mac): Ip6 {
    [0xFE, 0x80, 0, 0, 0, 0, 0, 0, FlipBit1(m[0]), m[1], m[2], 0xFF, 0xFE, m[3], m[4], m[5]]
  }

  function SolicitedNode(m: Mac): Ip6 {
    [0xFF, 0x02, 0, 0, 0, 0, 0, 0, 0, 0, 0, 0x01, 0xFF, m[3], m[4], m[5]]
  }

  function MulticastMac(a: Ip6): (m: Mac)
    ensures m == [0x33, 0x33] + a[12..]
  {
    [0x33, 0x33, a[12], a[13], a[14], a[15]]
  }

  /** resolve_ip6 */
  function Resolve(st: Stack, a: Ip6): Option<Mac> {
    if a[0] == 0xFF then Some(MulticastMac(a))
    else if a == st.rxIp then Some(st.rxMac)
    else None
  }

  /**
   * The bytes of both addresses: FE80::/64 with the interface identifier of appendix A of RFC 4291,
   * which has FF FE in the middle and bit 1 of its first byte flipped, and FF02::1:FF00:0/104.
   */
  lemma AddressBytes(m: Mac)
    ensures var l := LinkLocal(m);
            && l[..8] == [0xFE, 0x80, 0, 0, 0, 0, 0, 0] && l[9..13] == m[1..3] + [0xFF, 0xFE] && l[13..] == m[3..]
            && l[8] / 4 == m[0] / 4 && l[8] % 2 == m[0] % 2 && l[8] != m[0]
    ensures SolicitedNode(m) == [0xFF, 0x02, 0, 0, 0, 0, 0, 0, 0, 0, 0, 0x01, 0xFF] + m[3..]
  {
    assert m[3..] == [m[3], m[4], m[5]] && m[1..3] == [m[1], m[2]];
  }

  /**
   * The addresses ip6_init makes, and who reaches them: link-local addresses tell MACs apart;
   * the solicited-node address shares its last 24 bits with the link-local one (section 2.7.1 of
   * RFC 4291) and resolves at every stack, to the MAC of the filter ip6_init sets; the link-local
   * address resolves exactly at the stacks that last heard from it.
   */
  lemma Reachability(m: Mac, m': Mac, st: Stack)
    ensures LinkLocal(m) == LinkLocal(m') <==> m == m'
    ensures SolicitedNode(m)[13..] == LinkLocal(m)[13..] == m[3..]
    ensures SolicitedNode(m) == SolicitedNode(m') <==> m[3..] == m'[3..]
    ensures Resolve(st, SolicitedNode(m)) == Some([0x33, 0x33, 0xFF] + m[3..])
    ensures Resolve(st, LinkLocal(m)) == if st.rxIp == LinkLocal(m) then Some(st.rxMac) else None
  {
    var l, l', s, s' := LinkLocal(m), LinkLocal(m'), SolicitedNode(m), SolicitedNode(m');
    assert m[3..] == [m[3], m[4], m[5]];
    assert MulticastMac(s) == [0x33, 0x33, 0xFF] + m[3..];
    if l == l' {
      assert l[8] == l'[8] && l[9] == l'[9] && l[10] == l'[10] && l[13] == l'[13] && l[14] == l'[14] && l[15] == l'[15];
      assert m[0] == m'[0];
    }
    if m[3..] == m'[3..] {
      assert m[3] == m[3..][0] && m[4] == m[3..][1] && m[5] == m[3..][2];
      assert m'[3] == m'[3..][0] && m'[4] == m'[3..][1] && m'[5] == m'[3..][2];
    }
    if s == s' {
      assert s[13] == s'[13] && s[14] == s'[14] && s[15] == s'[15];
    }
  }

  // --- sending ---

  function Le16(n: uint16): seq<byte> {
    [n % 0x100, n / 0x100]
  }

  function IpHeader(src: Ip6, dst: Ip6, length: uint16, next: byte): (h: seq<byte>)
    ensures |h| == IP6_HDR_LEN
  {
    [0x60, 0, 0, 0] + BigEndian16(length) + [next, 255] + src + dst
  }

  /** Ethernet and IPv6 headers (ip6_setup) followed by the upper-layer body. */
  function Frame(dmac: Mac, smac: Mac, src: Ip6, dst: Ip6, next: byte, body: seq<byte>): (f: seq<byte>)
    requires |body| < TWO16
    ensures |f| == ETH_HDR_LEN + IP6_HDR_LEN + |body|
  {
    dmac + smac + [0x86, 0xDD] + IpHeader(src, dst, |body|, next) + body
  }

  /** ip6_checksum: the complement, except that 0xFFFF stays, since 0 is illegal. */
  function WireChecksum(sum: uint16): uint16 {
    if sum != 0xFFFF then 0xFFFF - sum else sum
  }

  function UdpSegment(sport: uint16, dport: uint16, ck: uint16, payload: seq<byte>): seq<byte>
    requires |payload| + UDP_HDR_LEN < TWO16
  {
    BigEndian16(sport) + BigEndian16(dport) + BigEndian16(|payload| + UDP_HDR_LEN) + Le16(ck) + payload
  }

  function UdpChecksum(src: Ip6, dst: Ip6, dport: uint16, sport: uint16, payload: seq<byte>): uint16
    requires |payload| + UDP_HDR_LEN < TWO16
  {
    WireChecksum(PseudoSum(src + dst, |payload| + UDP_HDR_LEN, HDR_UDP, UdpSegment(sport, dport, 0, payload)))
  }

  /** The frame udp6_send puts on the wire. */
  function UdpFrame(st: Stack, dmac: Mac, payload: seq<byte>, dst: Ip6, dport: uint16, sport: uint16): seq<byte>
    requires |payload| <= UDP6_MAX_PAYLOAD
  {
    Frame(dmac, st.mac, st.ip, dst, HDR_UDP,
          UdpSegment(sport, dport, UdpChecksum(st.ip, dst, dport, sport, payload), payload))
  }

  /** data with its checksum field overwritten; a message too short for the field keeps its length. */
  function WithChecksum(data: seq<byte>, ck: uint16): seq<byte> {
    Splice(data + [0, 0, 0, 0], 2, Le16(ck))[..|data|]
  }

  /** The frame icmp6_send puts on the wire. */
  function IcmpFrame(st: Stack, dmac: Mac, data: seq<byte>, dst: Ip6): seq<byte>
    requires |data| <= ICMP6_MAX_PAYLOAD
  {
    var ck := WireChecksum(PseudoSum(st.ip + dst, |data|, HDR_ICMP6, data));
    Frame(dmac, st.mac, st.ip, dst, HDR_ICMP6, WithChecksum(data, ck))
  }

  /** The neighbour advertisement sent for a solicitation (section 4.4 of RFC 4861). */
  function NdpAdvert(st: Stack): (m: seq<byte>)
    ensures |m| == 32
  {
    [ICMP6_NDP_N_ADVERTISE, 0, 0, 0, 0x60, 0, 0, 0] + st.ip + [NDP_N_TGT_LL_ADDR, 1] + st.mac
  }

  // --- receiving ---

  datatype Action =
    | Drop
    | Deliver(payload: seq<byte>, daddr: Ip6, dport: uint16, saddr: Ip6, sport: uint16)
    | Reply(data: seq<byte>, to: Ip6)

  function Be16(b: seq<byte>, i: nat): uint16
    requires i + 2 <= |b|
  {
    Word16(b[i + 1], b[i])
  }

  function FieldLe16(b: seq<byte>, i: nat): uint16
    requires i + 2 <= |b|
  {
    Word16(b[i], b[i + 1])
  }

  /** A received checksum of 0xFFFF is rewritten to 0 before the sum is taken. */
  function Normalize(buf: seq<byte>, at: nat): (r: seq<byte>)
    requires at + 2 <= |buf|
    ensures |r| == |buf|
  {
    if FieldLe16(buf, at) == 0xFFFF then Splice(buf, at, [0, 0]) else buf
  }

  /** The sum over the pseudo-header and n bytes of body comes out right. */
  predicate SumOk(buf: seq<byte>, n: uint16, next: byte)
    requires ETH_HDR_LEN + IP6_HDR_LEN + n <= |buf|
  {
    PseudoSum(buf[22..54], n, next, buf[54..54 + n]) == 0xFFFF
  }

  /** _udp6_recv: n is the IPv6 payload length. */
  function UdpRecv(buf: seq<byte>, n: uint16): Action
    requires ETH_HDR_LEN + IP6_HDR_LEN + n <= |buf|
  {
    if n < UDP_HDR_LEN then Drop
    else if FieldLe16(buf, 60) == 0 then Drop
    else if !SumOk(Normalize(buf, 60), n, HDR_UDP) then Drop
    else
      var m := Be16(buf, 58);
      if m < UDP_HDR_LEN || m > n then Drop
      else Deliver(buf[62..54 + m], buf[38..54], Be16(buf, 56), buf[22..38], Be16(buf, 54))
  }

  /** The tests icmp6_recv makes on the checksum, whatever n is. */
  predicate IcmpTest(buf: seq<byte>, n: uint16)
    requires 58 <= |buf| && ETH_HDR_LEN + IP6_HDR_LEN + n <= |buf|
  {
    FieldLe16(buf, 56) != 0 && SumOk(Normalize(buf, 56), n, HDR_ICMP6)
  }

  /** icmp6_recv reads the header fields from the receive buffer whatever n is. */
  function IcmpRecv(st: Stack, buf: seq<byte>, n: uint16): Action
    requires |buf| == ETH_MTU && ETH_HDR_LEN + IP6_HDR_LEN + n <= |buf|
  {
    var b := Normalize(buf, 56);
    if !IcmpTest(buf, n) then Drop
    else if b[54] == ICMP6_NDP_N_SOLICIT then
      if n < 24 then Drop
      else if b[55] != 0 then Drop
      else if b[62..78] != st.ip then Drop
      else Reply(NdpAdvert(st), b[22..38])
    else if b[54] == ICMP6_ECHO_REQUEST then
      Reply(Splice(Splice(b, 56, [0, 0]), 54, [ICMP6_ECHO_REPLY])[54..54 + n], b[22..38])
    else Drop
  }

  /** eth_recv on the 1514-byte receive buffer, of which the frame occupies the first len bytes. */
  function EthRecv(st: Stack, buf: seq<byte>, len: nat): (Stack, Action)
    requires |buf| == ETH_MTU && len <= ETH_MTU
  {
    if len < ETH_HDR_LEN + IP6_HDR_LEN then (st, Drop)
    else if buf[12] != 0x86 || buf[13] != 0xDD then (st, Drop)
    else if buf[14] / 0x10 != 6 then (st, Drop)
    else
      var n := Be16(buf, 18);
      if n > len - (ETH_HDR_LEN + IP6_HDR_LEN) then (st, Drop)
      else if st.ip != buf[38..54] && st.snm != buf[38..54] then (st, Drop)
      else
        var st' := st.(rxMac := buf[6..12], rxIp := buf[22..38]);
        if buf[20] == HDR_ICMP6 then (st', IcmpRecv(st', buf, n))
        else if buf[20] == HDR_UDP then (st', UdpRecv(buf, n))
        else (st', Drop)
  }

  // --- the checksum verdict ---

  lemma VerdictIsResidue(addrs: seq<byte>, n: uint16, next: byte, body: seq<byte>)
    requires |addrs| % 2 == 0 && next != 0
    ensures PseudoSum(addrs, n, next, body) == 0xFFFF
            <==> PseudoTotal(addrs, n, next, body) % 0xFFFF == 0
  {
    PseudoSumIsRep(addrs, n, next, body);
    RepCongruent(PseudoTotal(addrs, n, next, body));
  }

  /** A 16-bit word in the middle of a body adds its value to the sum. */
  lemma MiddleWord(addrs: seq<byte>, n: uint16, next: byte, pre: seq<byte>, w: uint16, post: seq<byte>)
    requires |addrs| % 2 == 0 && |pre| % 2 == 0
    ensures PseudoTotal(addrs, n, next, pre + Le16(w) + post)
            == PseudoTotal(addrs, n, next, pre + post) + w
  {
    SumAppend(addrs, pre + Le16(w) + post);
    SumAppend(addrs, pre + post);
    assert pre + Le16(w) + post == pre + (Le16(w) + post);
    SumAppend(pre, Le16(w) + post);
    SumAppend(pre, post);
    SumPair(w % 0x100, w / 0x100, post);
  }

  /** ck is the checksum ip6_checksum writes into the zeroed field between pre and post. */
  predicate IsWireChecksum(addrs: seq<byte>, n: uint16, next: byte, pre: seq<byte>, post: seq<byte>, ck: uint16) {
    ck == WireChecksum(PseudoSum(addrs, n, next, pre + Le16(0) + post))
  }

  /** The verdict on a body as it was sent: never zero, and the sum comes out right. */
  lemma CompletedSum(addrs: seq<byte>, n: uint16, next: byte, pre: seq<byte>, post: seq<byte>, ck: uint16)
    requires |addrs| % 2 == 0 && |pre| % 2 == 0 && next != 0
    requires IsWireChecksum(addrs, n, next, pre, post, ck)
    ensures ck != 0
    ensures PseudoTotal(addrs, n, next, pre + Le16(ck) + post) % 0xFFFF == 0
  {
    var total := PseudoTotal(addrs, n, next, pre + post);
    MiddleWord(addrs, n, next, pre, 0, post);
    MiddleWord(addrs, n, next, pre, ck, post);
    PseudoSumIsRep(addrs, n, next, pre + Le16(0) + post);
    var k := RepSplit(total);
    ModShift(0, if ck == 0xFFFF then k + 2 else k + 1);
  }

  /** A checksum of 0xFFFF counts like 0: the protocol term keeps the sum from being zero. */
  lemma RewriteInside(addrs: seq<byte>, n: uint16, next: byte, pre: seq<byte>, post: seq<byte>)
    requires |addrs| % 2 == 0 && |pre| % 2 == 0 && next != 0
    ensures PseudoSum(addrs, n, next, pre + Le16(0xFFFF) + post) == 0xFFFF
            <==> PseudoSum(addrs, n, next, pre + Le16(0) + post) == 0xFFFF
  {
    MiddleWord(addrs, n, next, pre, 0xFFFF, post);
    MiddleWord(addrs, n, next, pre, 0, post);
    VerdictIsResidue(addrs, n, next, pre + Le16(0xFFFF) + post);
    VerdictIsResidue(addrs, n, next, pre + Le16(0) + post);
    ModShift(PseudoTotal(addrs, n, next, pre + post), 1);
  }

  /** What is summed up for the n bytes behind the IPv6 header of a received buffer. */
  function BufferTotal(buf: seq<byte>, n: uint16, next: byte): nat
    requires ETH_HDR_LEN + IP6_HDR_LEN + n <= |buf|
  {
    PseudoTotal(buf[22..54], n, next, buf[54..54 + n])
  }

  /** The body ends in the middle of a checksum field that is rewritten. */
  predicate CutField(buf: seq<byte>, at: nat, n: uint16)
    requires at + 2 <= |buf|
  {
    at + 1 == 54 + n && FieldLe16(buf, at) == 0xFFFF
  }

  lemma VerdictInside(buf: seq<byte>, at: nat, n: uint16, next: byte)
    requires 54 + n <= |buf| && 54 <= at && at % 2 == 0 && at + 2 <= 54 + n && next != 0
    ensures SumOk(Normalize(buf, at), n, next) <==> BufferTotal(buf, n, next) % 0xFFFF == 0
  {
    var addrs := buf[22..54];
    var body := buf[54..54 + n];
    VerdictIsResidue(addrs, n, next, body);
    if FieldLe16(buf, at) == 0xFFFF {
      RewrittenParts(buf, at, n);
      RewriteInside(addrs, n, next, buf[54..at], buf[at + 2..54 + n]);
    }
  }

  lemma RewrittenParts(buf: seq<byte>, at: nat, n: uint16)
    requires 54 + n <= |buf| && 54 <= at && at + 2 <= 54 + n && FieldLe16(buf, at) == 0xFFFF
    ensures buf[54..54 + n] == buf[54..at] + Le16(0xFFFF) + buf[at + 2..54 + n]
    ensures Normalize(buf, at)[22..54] == buf[22..54]
    ensures Normalize(buf, at)[54..54 + n] == buf[54..at] + Le16(0) + buf[at + 2..54 + n]
  {
    var r := Normalize(buf, at);
    assert r == buf[..at] + [0, 0] + buf[at + 2..];
  }

  /** A byte behind an even number of bytes adds its value to the sum. */
  lemma LastByte(addrs: seq<byte>, n: uint16, next: byte, pre: seq<byte>, x: byte)
    requires |addrs| % 2 == 0 && |pre| % 2 == 0
    ensures PseudoTotal(addrs, n, next, pre + [x]) == PseudoTotal(addrs, n, next, pre) + x
  {
    SumAppend(addrs, pre + [x]);
    SumAppend(addrs, pre);
    SumAppend(pre, [x]);
  }

  lemma ModLess(t: nat, c: nat)
    requires c < 0xFFFF && c <= t
    ensures (t - c) % 0xFFFF == 0 <==> t % 0xFFFF == c
  {
    ModShift(t - c, -(t / 0xFFFF));
  }

  lemma VerdictAtCut(buf: seq<byte>, at: nat, n: uint16, next: byte)
    requires 54 + n <= |buf| && 54 <= at && at % 2 == 0 && at + 2 <= |buf| && next != 0
    requires CutField(buf, at, n)
    ensures SumOk(Normalize(buf, at), n, next) <==> BufferTotal(buf, n, next) % 0xFFFF == 0xFF
  {
    var addrs, pre := buf[22..54], buf[54..at];
    var r := Normalize(buf, at);
    assert buf[54..54 + n] == pre + [0xFF];
    assert r[22..54] == addrs;
    assert r[54..54 + n] == pre + [0];
    VerdictIsResidue(addrs, n, next, pre + [0]);
    LastByte(addrs, n, next, pre, 0);
    LastByte(addrs, n, next, pre, 0xFF);
    ModLess(PseudoTotal(addrs, n, next, pre + [0xFF]), 0xFF);
  }

  /**
   * The receivers' test for every length: it passes exactly if what is in the buffer sums up to
   * 0 modulo 65535, or to 0xFF if the body ends within a checksum field that is rewritten.
   */
  lemma BufferVerdict(buf: seq<byte>, at: nat, n: uint16, next: byte)
    requires 54 + n <= |buf| && 54 <= at && at % 2 == 0 && at + 2 <= |buf| && next != 0
    ensures SumOk(Normalize(buf, at), n, next)
            <==> BufferTotal(buf, n, next) % 0xFFFF == if CutField(buf, at, n) then 0xFF else 0
  {
    if at + 2 <= 54 + n {
      VerdictInside(buf, at, n, next);
    } else if CutField(buf, at, n) {
      VerdictAtCut(buf, at, n, next);
    } else {
      var r := Normalize(buf, at);
      assert r[22..54] == buf[22..54] && r[54..54 + n] == buf[54..54 + n];
      VerdictIsResidue(buf[22..54], n, next, buf[54..54 + n]);
    }
  }

  /**
   * Rewriting a checksum of 0xFFFF to 0 keeps the verdict, for every buffer and length, if and
   * only if the body does not end within the field, or the sum is wrong either way.
   */
  lemma RewriteKeepsVerdict(buf: seq<byte>, at: nat, n: uint16, next: byte)
    requires 54 + n <= |buf| && 54 <= at && at % 2 == 0 && at + 2 <= |buf| && next != 0
    ensures var t := BufferTotal(buf, n, next) % 0xFFFF;
            (SumOk(Normalize(buf, at), n, next) <==> SumOk(buf, n, next))
            <==> !CutField(buf, at, n) || (t != 0 && t != 0xFF)
  {
    BufferVerdict(buf, at, n, next);
    VerdictIsResidue(buf[22..54], n, next, buf[54..54 + n]);
  }

  // --- frames as the receiver sees them ---

  lemma IpHeaderFields(src: Ip6, dst: Ip6, length: uint16, next: byte)
    ensures var h := IpHeader(src, dst, length, next);
            && h[0..4] == [0x60, 0, 0, 0] && h[4..6] == BigEndian16(length) && h[6] == next && h[7] == 255
            && h[8..24] == src && h[24..40] == dst && h[8..40] == src + dst
  {
  }

  /** The fields a receiver finds in a frame ip6_setup built, hop limit 255 included. */
  lemma FrameFields(dmac: Mac, smac: Mac, src: Ip6, dst: Ip6, next: byte, body: seq<byte>, rest: seq<byte>)
    requires |body| < TWO16
    ensures var f := Frame(dmac, smac, src, dst, next, body) + rest;
            && f[..6] == dmac && f[6..12] == smac && f[12] == 0x86 && f[13] == 0xDD && f[14..18] == [0x60, 0, 0, 0]
            && Be16(f, 18) == |body| && f[20] == next && f[21] == 255
            && f[22..38] == src && f[38..54] == dst && f[22..54] == src + dst
            && f[54..54 + |body|] == body
  {
    var h := IpHeader(src, dst, |body|, next);
    var f := Frame(dmac, smac, src, dst, next, body) + rest;
    IpHeaderFields(src, dst, |body|, next);
    assert f[14..54] == h;
    assert f[14..18] == h[0..4];
    assert f[18..20] == h[4..6];
    assert f[22..38] == h[8..24];
    assert f[38..54] == h[24..40];
    assert f[22..54] == h[8..40];
  }

  /** A frame built by ip6_setup reaches the upper layer of the stack that owns the address. */
  lemma FrameReaches(b: Stack, dmac: Mac, smac: Mac, src: Ip6, dst: Ip6, next: byte, body: seq<byte>,
                     rest: seq<byte>, len: nat)
    requires |body| <= ICMP6_MAX_PAYLOAD && (dst == b.ip || dst == b.snm)
    requires ETH_HDR_LEN + IP6_HDR_LEN + |body| + |rest| == ETH_MTU
    requires ETH_HDR_LEN + IP6_HDR_LEN + |body| <= len <= ETH_MTU
    ensures var f := Frame(dmac, smac, src, dst, next, body) + rest;
            var st := b.(rxMac := smac, rxIp := src);
            EthRecv(b, f, len) == (st, if next == HDR_ICMP6 then IcmpRecv(st, f, |body|)
                                       else if next == HDR_UDP then UdpRecv(f, |body|) else Drop)
  {
    FrameFields(dmac, smac, src, dst, next, body, rest);
  }

  lemma SegmentFields(sport: uint16, dport: uint16, ck: uint16, payload: seq<byte>)
    requires |payload| + UDP_HDR_LEN < TWO16
    ensures var s := UdpSegment(sport, dport, ck, payload);
            && |s| == UDP_HDR_LEN + |payload|
            && s == s[..6] + Le16(ck) + payload && s[6..8] == Le16(ck) && s[8..] == payload
            && s[..6] == BigEndian16(sport) + BigEndian16(dport) + BigEndian16(|payload| + UDP_HDR_LEN)
            && s[0..2] == BigEndian16(sport) && s[2..4] == BigEndian16(dport)
            && s[4..6] == BigEndian16(|payload| + UDP_HDR_LEN)
  {
  }

  lemma Be16At(f: seq<byte>, i: nat, v: uint16)
    requires i + 2 <= |f|
    ensures f[i..i + 2] == BigEndian16(v) ==> Be16(f, i) == v
    ensures f[i..i + 2] == Le16(v) ==> FieldLe16(f, i) == v
  {
    assert f[i] == f[i..i + 2][0] && f[i + 1] == f[i..i + 2][1];
  }

  lemma SegmentChecksum(src: Ip6, dst: Ip6, sport: uint16, dport: uint16, payload: seq<byte>)
    requires |payload| <= UDP6_MAX_PAYLOAD
    ensures var ck := UdpChecksum(src, dst, dport, sport, payload);
            && ck != 0
            && PseudoTotal(src + dst, |payload| + UDP_HDR_LEN, HDR_UDP, UdpSegment(sport, dport, ck, payload))
               % 0xFFFF == 0
  {
    var ck := UdpChecksum(src, dst, dport, sport, payload);
    SegmentFields(sport, dport, 0, payload);
    SegmentFields(sport, dport, ck, payload);
    CompletedSum(src + dst, |payload| + UDP_HDR_LEN, HDR_UDP, UdpSegment(sport, dport, 0, payload)[..6], payload, ck);
  }

  lemma SegmentDelivered(f: seq<byte>, src: Ip6, dst: Ip6, sport: uint16, dport: uint16, payload: seq<byte>)
    requires |payload| <= UDP6_MAX_PAYLOAD
    requires var n := |payload| + UDP_HDR_LEN;
             && 54 + n <= |f| && f[22..38] == src && f[38..54] == dst && f[22..54] == src + dst
             && f[54..54 + n] == UdpSegment(sport, dport, UdpChecksum(src, dst, dport, sport, payload), payload)
    ensures UdpRecv(f, |payload| + UDP_HDR_LEN) == Deliver(payload, dst, dport, src, sport)
  {
    var n := |payload| + UDP_HDR_LEN;
    var ck := UdpChecksum(src, dst, dport, sport, payload);
    var s := UdpSegment(sport, dport, ck, payload);
    SegmentFields(sport, dport, ck, payload);
    SegmentChecksum(src, dst, sport, dport, payload);
    BufferVerdict(f, 60, n, HDR_UDP);
    SubSlice(f, 54, s, 0, 2);
    SubSlice(f, 54, s, 2, 4);
    SubSlice(f, 54, s, 4, 6);
    SubSlice(f, 54, s, 6, 8);
    SubSlice(f, 54, s, 8, n);
    Be16At(f, 54, sport);
    Be16At(f, 56, dport);
    Be16At(f, 58, n);
    Be16At(f, 60, ck);
  }

  /**
   * Send/receive round trip: a frame built by udp6_send, followed by any padding and any stale
   * bytes of the receive buffer, delivers exactly its payload, addresses and ports to the stack
   * that owns the destination, and is remembered for the reply; its checksum is never 0.
   */
  lemma UdpRoundTrip(a: Stack, b: Stack, dmac: Mac, payload: seq<byte>, dst: Ip6, dport: uint16, sport: uint16,
                     rest: seq<byte>, len: nat)
    requires |payload| <= 1452 && (dst == b.ip || dst == b.snm)
    requires var f := UdpFrame(a, dmac, payload, dst, dport, sport);
             |f| + |rest| == ETH_MTU && |f| <= len <= ETH_MTU
    ensures EthRecv(b, UdpFrame(a, dmac, payload, dst, dport, sport) + rest, len)
            == (b.(rxMac := a.mac, rxIp := a.ip), Deliver(payload, dst, dport, a.ip, sport))
    ensures UdpChecksum(a.ip, dst, dport, sport, payload) != 0
  {
    var body := UdpSegment(sport, dport, UdpChecksum(a.ip, dst, dport, sport, payload), payload);
    SegmentFields(sport, dport, UdpChecksum(a.ip, dst, dport, sport, payload), payload);
    FrameReaches(b, dmac, a.mac, a.ip, dst, HDR_UDP, body, rest, len);
    FrameFields(dmac, a.mac, a.ip, dst, HDR_UDP, body, rest);
    SegmentDelivered(Frame(dmac, a.mac, a.ip, dst, HDR_UDP, body) + rest, a.ip, dst, sport, dport, payload);
    SegmentChecksum(a.ip, dst, sport, dport, payload);
  }

  // --- error detection ---

  /** The aligned 16-bit word k of a body; an odd last byte is a word of its own. */
  function WordAt(b: seq<byte>, k: nat): uint16
    requires 2 * k < |b|
  {
    if 2 * k + 1 < |b| then Word16(b[2 * k], b[2 * k + 1]) else b[2 * k]
  }

  lemma SumFromWord(b: seq<byte>, k: nat)
    requires 2 * k < |b|
    ensures SumLE(b) == SumLE(b[..2 * k]) + WordAt(b, k) + SumLE(if 2 * k + 1 < |b| then b[2 * k + 2..] else [])
  {
    SumAppend(b[..2 * k], b[2 * k..]);
    assert b == b[..2 * k] + b[2 * k..];
    if 2 * k + 1 < |b| {
      SumPair(b[2 * k], b[2 * k + 1], b[2 * k + 2..]);
      assert b[2 * k..] == [b[2 * k], b[2 * k + 1]] + b[2 * k + 2..];
    }
  }

  /** b and c differ in word k at most. */
  predicate SameButWord(b: seq<byte>, c: seq<byte>, k: nat) {
    |b| == |c| && forall i :: 0 <= i < |b| && i != 2 * k && i != 2 * k + 1 ==> b[i] == c[i]
  }

  /** c is b with word k changed to a value that is not congruent to it modulo 65535. */
  predicate Corrupted(b: seq<byte>, c: seq<byte>, k: nat) {
    SameButWord(b, c, k) && 2 * k < |b| && WordAt(b, k) % 0xFFFF != WordAt(c, k) % 0xFFFF
  }

  lemma ChangedWord(addrs: seq<byte>, n: uint16, next: byte, b: seq<byte>, c: seq<byte>, k: nat)
    requires |addrs| % 2 == 0 && SameButWord(b, c, k) && 2 * k < |b|
    ensures PseudoTotal(addrs, n, next, c) - WordAt(c, k) == PseudoTotal(addrs, n, next, b) - WordAt(b, k)
  {
    SumAppend(addrs, b);
    SumAppend(addrs, c);
    SumFromWord(b, k);
    SumFromWord(c, k);
    assert b[..2 * k] == c[..2 * k];
    if 2 * k + 1 < |b| {
      assert b[2 * k + 2..] == c[2 * k + 2..];
    }
  }

  lemma ResidueDiffers(x: int, y: int, v: int, w: int)
    requires x - v == y - w && x % 0xFFFF == 0 && y % 0xFFFF == 0
    ensures v % 0xFFFF == w % 0xFFFF
  {
    ModShift(v, y / 0xFFFF - x / 0xFFFF);
  }

  lemma UdpDeliveryResidue(buf: seq<byte>, n: uint16)
    requires 54 + n <= |buf| && UdpRecv(buf, n).Deliver?
    ensures n >= UDP_HDR_LEN && BufferTotal(buf, n, HDR_UDP) % 0xFFFF == 0
  {
    BufferVerdict(buf, 60, n, HDR_UDP);
  }

  /** Frames that agree up to the IPv6 header are dispatched alike. */
  lemma SameDispatch(st: Stack, buf: seq<byte>, buf': seq<byte>, len: nat)
    requires |buf| == |buf'| == ETH_MTU && len <= ETH_MTU && buf[..54] == buf'[..54]
    requires EthRecv(st, buf, len).1.Deliver?
    ensures var n := Be16(buf, 18);
            && 54 + n <= ETH_MTU && UdpRecv(buf, n).Deliver? && EthRecv(st, buf', len).1 == UdpRecv(buf', n)
            && buf[22..54] == buf'[22..54]
  {
    assert forall i :: 0 <= i < 54 ==> buf[i] == buf[..54][i] && buf'[i] == buf'[..54][i];
    assert buf[38..54] == buf'[38..54];
  }

  lemma SegmentErrorDetected(buf: seq<byte>, buf': seq<byte>, n: uint16, k: nat)
    requires 54 + n <= |buf| == |buf'| && buf[22..54] == buf'[22..54] && UdpRecv(buf, n).Deliver?
    requires Corrupted(buf[54..54 + n], buf'[54..54 + n], k)
    ensures !UdpRecv(buf', n).Deliver?
  {
    var addrs := buf[22..54];
    var b, c := buf[54..54 + n], buf'[54..54 + n];
    UdpDeliveryResidue(buf, n);
    ChangedWord(addrs, n, HDR_UDP, b, c, k);
    if UdpRecv(buf', n).Deliver? {
      UdpDeliveryResidue(buf', n);
      ResidueDiffers(PseudoTotal(addrs, n, HDR_UDP, c), PseudoTotal(addrs, n, HDR_UDP, b), WordAt(c, k), WordAt(b, k));
      assert false;
    }
  }

  /**
   * Error detection: if a frame is delivered, then changing any one aligned word of its UDP
   * header or payload to a value that is not congruent to it modulo 65535 prevents delivery.
   */
  lemma ErrorDetection(st: Stack, buf: seq<byte>, buf': seq<byte>, len: nat, k: nat)
    requires |buf| == |buf'| == ETH_MTU && len <= ETH_MTU && buf[..54] == buf'[..54]
    requires EthRecv(st, buf, len).1.Deliver?
    requires var n := Be16(buf, 18); Corrupted(buf[54..54 + n], buf'[54..54 + n], k)
    ensures EthRecv(st, buf', len).1 == Drop
  {
    SameDispatch(st, buf, buf', len);
    SegmentErrorDetected(buf, buf', Be16(buf, 18), k);
  }

  lemma IcmpReplyResidue(st: Stack, buf: seq<byte>, n: uint16)
    requires |buf| == ETH_MTU && 54 + n <= |buf| && IcmpRecv(st, buf, n).Reply?
    ensures buf[56..58] != [0, 0]
    ensures BufferTotal(buf, n, HDR_ICMP6) % 0xFFFF == if CutField(buf, 56, n) then 0xFF else 0
  {
    assert buf[56..58] == [buf[56], buf[57]];
    BufferVerdict(buf, 56, n, HDR_ICMP6);
  }

  /**
   * Acceptance is sound: only an IPv6 frame addressed to this stack whose length fits touches the
   * reply cache, and of these only one whose checksum comes out right is delivered or answered.
   * For an ICMPv6 message that ends within a checksum field of 0xFFFF, right means 0xFF.
   */
  lemma AcceptanceIsSound(st: Stack, buf: seq<byte>, len: nat)
    requires |buf| == ETH_MTU && len <= ETH_MTU
    ensures var (st', act) := EthRecv(st, buf, len);
            var n := Be16(buf, 18);
            && st'.mac == st.mac && st'.ip == st.ip && st'.snm == st.snm
            && (st' != st || !act.Drop? ==>
                  && buf[12..14] == [0x86, 0xDD] && buf[14] / 0x10 == 6 && 54 + n <= len
                  && (buf[38..54] == st.ip || buf[38..54] == st.snm)
                  && st'.rxMac == buf[6..12] && st'.rxIp == buf[22..38])
            && (act.Reply? ==>
                  && buf[20] == HDR_ICMP6 && buf[56..58] != [0, 0]
                  && BufferTotal(buf, n, HDR_ICMP6) % 0xFFFF == if CutField(buf, 56, n) then 0xFF else 0)
            && (act.Deliver? ==>
                  && buf[20] == HDR_UDP && |act.payload| + UDP_HDR_LEN == Be16(buf, 58) <= n
                  && act.payload == buf[62..62 + |act.payload|]
                  && BufferTotal(buf, n, HDR_UDP) % 0xFFFF == 0)
  {
    var act := EthRecv(st, buf, len).1;
    if act.Deliver? {
      DeliverySound(st, buf, len);
    } else if act.Reply? {
      ReplySound(st, buf, len);
    }
  }

  lemma DeliverySound(st: Stack, buf: seq<byte>, len: nat)
    requires |buf| == ETH_MTU && len <= ETH_MTU && EthRecv(st, buf, len).1.Deliver?
    ensures var n := Be16(buf, 18);
            var act := EthRecv(st, buf, len).1;
            && 54 + n <= len && buf[20] == HDR_UDP && BufferTotal(buf, n, HDR_UDP) % 0xFFFF == 0
            && |act.payload| + UDP_HDR_LEN == Be16(buf, 58) <= n && act.payload == buf[62..62 + |act.payload|]
  {
    UdpDeliveryResidue(buf, Be16(buf, 18));
  }

  lemma ReplySound(st: Stack, buf: seq<byte>, len: nat)
    requires |buf| == ETH_MTU && len <= ETH_MTU && EthRecv(st, buf, len).1.Reply?
    ensures var n := Be16(buf, 18);
            && 54 + n <= len && buf[20] == HDR_ICMP6 && buf[56..58] != [0, 0]
            && BufferTotal(buf, n, HDR_ICMP6) % 0xFFFF == if CutField(buf, 56, n) then 0xFF else 0
  {
    IcmpReplyResidue(st.(rxMac := buf[6..12], rxIp := buf[22..38]), buf, Be16(buf, 18));
  }

  // --- what exactly is accepted, by byte position ---

  /** A big-endian 16-bit field. */
  function Field(buf: seq<byte>, i: nat): nat
    requires i + 2 <= |buf|
  {
    0x100 * buf[i] as int + buf[i + 1]
  }

  /** An IPv6 frame to this stack whose payload lies within the frame; any traffic class and flow label. */
  predicate Admitted(st: Stack, buf: seq<byte>, len: nat)
    requires |buf| == ETH_MTU && len <= ETH_MTU
  {
    && len >= 54 && buf[12] == 0x86 && buf[13] == 0xDD && 0x60 <= buf[14] <= 0x6F
    && 54 + Field(buf, 18) <= len && (buf[38..54] == st.ip || buf[38..54] == st.snm)
  }

  lemma AdmittedDispatch(st: Stack, buf: seq<byte>, len: nat)
    requires |buf| == ETH_MTU && len <= ETH_MTU
    ensures var st' := st.(rxMac := buf[6..12], rxIp := buf[22..38]);
            if Admitted(st, buf, len) then
              var n := Field(buf, 18);
              EthRecv(st, buf, len) == (st', if buf[20] == 58 then IcmpRecv(st', buf, n)
                                             else if buf[20] == 17 then UdpRecv(buf, n) else Drop)
            else EthRecv(st, buf, len) == (st, Drop)
  {
  }

  /** The reply cache: exactly the admitted frames leave their sender there, and nothing else changes. */
  lemma CachedExactly(st: Stack, buf: seq<byte>, len: nat)
    requires |buf| == ETH_MTU && len <= ETH_MTU
    ensures EthRecv(st, buf, len).0
            == if Admitted(st, buf, len) then Stack(st.mac, st.ip, st.snm, buf[6..12], buf[22..38]) else st
  {
    AdmittedDispatch(st, buf, len);
  }

  lemma SegmentExactly(buf: seq<byte>, n: uint16)
    requires 54 + n <= |buf|
    ensures UdpRecv(buf, n).Deliver? <==>
              && n >= 8 && (buf[60] != 0 || buf[61] != 0) && BufferTotal(buf, n, 17) % 0xFFFF == 0
              && 8 <= Field(buf, 58) <= n
    ensures UdpRecv(buf, n).Deliver? ==>
              UdpRecv(buf, n) == Deliver(buf[62..54 + Field(buf, 58)], buf[38..54], Field(buf, 56),
                                         buf[22..38], Field(buf, 54))
    ensures UdpRecv(buf, n).Deliver? || UdpRecv(buf, n) == Drop
  {
    if n >= UDP_HDR_LEN {
      BufferVerdict(buf, 60, n, HDR_UDP);
    }
  }

  /**
   * Delivery, for every buffer and length, both ways: exactly the admitted UDP segments with room
   * for their header, a checksum that is not 0, the residue 0 and a length field between 8 and
   * the IPv6 payload are delivered, with payload, addresses and ports from these bytes.
   */
  lemma DeliveredExactly(st: Stack, buf: seq<byte>, len: nat)
    requires |buf| == ETH_MTU && len <= ETH_MTU
    ensures var act := EthRecv(st, buf, len).1;
            var n := Field(buf, 18);
            && (act.Deliver? <==>
                  && Admitted(st, buf, len) && buf[20] == 17 && n >= 8 && (buf[60] != 0 || buf[61] != 0)
                  && BufferTotal(buf, n, 17) % 0xFFFF == 0 && 8 <= Field(buf, 58) <= n)
            && (act.Deliver? ==>
                  act == Deliver(buf[62..54 + Field(buf, 58)], buf[38..54], Field(buf, 56),
                                 buf[22..38], Field(buf, 54)))
  {
    AdmittedDispatch(st, buf, len);
    if Admitted(st, buf, len) {
      SegmentExactly(buf, Field(buf, 18));
      MessageExactly(st.(rxMac := buf[6..12], rxIp := buf[22..38]), buf, Field(buf, 18));
    }
  }

  lemma MessageExactly(st: Stack, buf: seq<byte>, n: uint16)
    requires |buf| == ETH_MTU && 54 + n <= |buf|
    ensures IcmpRecv(st, buf, n).Reply? <==>
              && (buf[56] != 0 || buf[57] != 0)
              && BufferTotal(buf, n, 58) % 0xFFFF == (if n == 3 && buf[56] == buf[57] == 0xFF then 0xFF else 0)
              && (buf[54] == 128 || (buf[54] == 135 && n >= 24 && buf[55] == 0 && buf[62..78] == st.ip))
    ensures IcmpRecv(st, buf, n).Reply? || IcmpRecv(st, buf, n) == Drop
  {
    var b := Normalize(buf, 56);
    BufferVerdict(buf, 56, n, HDR_ICMP6);
    assert b[54] == buf[54] && b[55] == buf[55] && b[62..78] == buf[62..78];
  }

  /**
   * Answers, for every buffer and length, both ways: exactly the admitted ICMPv6 messages with a
   * checksum that is not 0 and the right residue are answered that are echo requests, or
   * solicitations of at least 24 bytes with code 0 for this stack's address.
   */
  lemma AnsweredExactly(st: Stack, buf: seq<byte>, len: nat)
    requires |buf| == ETH_MTU && len <= ETH_MTU
    ensures var n := Field(buf, 18);
            EthRecv(st, buf, len).1.Reply? <==>
              && Admitted(st, buf, len) && buf[20] == 58 && (buf[56] != 0 || buf[57] != 0)
              && BufferTotal(buf, n, 58) % 0xFFFF == (if n == 3 && buf[56] == buf[57] == 0xFF then 0xFF else 0)
              && (buf[54] == 128 || (buf[54] == 135 && n >= 24 && buf[55] == 0 && buf[62..78] == st.ip))
  {
    AdmittedDispatch(st, buf, len);
    if Admitted(st, buf, len) {
      MessageExactly(st.(rxMac := buf[6..12], rxIp := buf[22..38]), buf, Field(buf, 18));
      SegmentExactly(buf, Field(buf, 18));
    }
  }

  // --- replies ---

  /** Where answers to the received frame go: back to its sender's MAC, or to the multicast mapping. */
  function ReplyMac(buf: seq<byte>): Mac
    requires |buf| == ETH_MTU
  {
    if buf[22] == 0xFF then MulticastMac(buf[22..38]) else buf[6..12]
  }

  /**
   * Reply routing: whatever the stack hands on or answers during receive dispatch, the sender's
   * address resolves, to the MAC the frame came from or to the multicast mapping of that address;
   * and an answer always fits a frame.
   */
  lemma ReplyRouting(st: Stack, buf: seq<byte>, len: nat)
    requires |buf| == ETH_MTU && len <= ETH_MTU
    ensures var (st', act) := EthRecv(st, buf, len);
            !act.Drop? ==>
              && (if act.Reply? then act.to else act.saddr) == buf[22..38]
              && Resolve(st', buf[22..38]) == Some(ReplyMac(buf))
              && (act.Reply? ==> |act.data| <= ICMP6_MAX_PAYLOAD)
  {
    var (st', act) := EthRecv(st, buf, len);
    if act.Reply? {
      assert Normalize(buf, 56)[22..38] == buf[22..38];
    }
  }
}
