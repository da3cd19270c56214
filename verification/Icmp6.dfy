/** What icmp6_recv answers in src/inet6.c, and which answers pass a receiver's checksum test. */
module Icmp6 {
  import opened Bytes
  import opened Checksum
  import opened Inet6

  // --- messages as icmp6_send puts them on the wire ---

  /** The checksum field, as far as the message has room for it, is zero. */
  predicate Zeroed(data: seq<byte>) {
    forall i :: 2 <= i < 4 && i < |data| ==> data[i] == 0
  }

  /** The checksum icmp6_send computes. */
  function SentChecksum(st: Stack, data: seq<byte>, dst: Ip6): uint16
    requires |data| <= ICMP6_MAX_PAYLOAD
  {
    WireChecksum(PseudoSum(st.ip + dst, |data|, HDR_ICMP6, data))
  }

  /** A message below 4 bytes carries one byte of its checksum, or none. */
  lemma SentBody(data: seq<byte>, ck: uint16)
    ensures var body := WithChecksum(data, ck);
            && |body| == |data| && body[..if |data| < 2 then |data| else 2] == data[..if |data| < 2 then |data| else 2]
            && (|data| >= 4 ==> body == data[..2] + Le16(ck) + data[4..])
            && (|data| == 3 ==> body == data[..2] + [ck % 0x100])
            && (|data| <= 2 ==> body == data)
  {
    var long := Splice(data + [0, 0, 0, 0], 2, Le16(ck));
    assert long == (data + [0, 0, 0, 0])[..2] + Le16(ck) + (data + [0, 0, 0, 0])[4..];
  }

  /** The checksum complements the sum t of the rest; it is 0xFFFF if t needs no complement. */
  lemma Complement(t: nat, ck: uint16)
    requires t > 0 && ck == WireChecksum(Rep(t))
    ensures ck != 0 && (t + ck) % 0xFFFF == 0 && (ck == 0xFFFF <==> t % 0xFFFF == 0)
  {
    var k := RepSplit(t);
    RepCongruent(t);
    ModShift(0, if ck == 0xFFFF then k + 2 else k + 1);
  }

  lemma SentTotal(addrs: seq<byte>, data: seq<byte>, ck: uint16)
    requires |addrs| % 2 == 0 && |data| <= ICMP6_MAX_PAYLOAD
    requires ck == WireChecksum(PseudoSum(addrs, |data|, HDR_ICMP6, data))
    ensures var t := PseudoTotal(addrs, |data|, HDR_ICMP6, data);
            ck != 0 && (t + ck) % 0xFFFF == 0 && (ck == 0xFFFF <==> t % 0xFFFF == 0)
  {
    PseudoSumIsRep(addrs, |data|, HDR_ICMP6, data);
    Complement(PseudoTotal(addrs, |data|, HDR_ICMP6, data), ck);
  }

  /** Only the low byte of the checksum was sent: right exactly if the high byte is zero. */
  lemma LowByteSent(t: nat, ck: uint16)
    requires (t + ck) % 0xFFFF == 0
    ensures (t + ck % 0x100) % 0xFFFF == 0 <==> ck < 0x100
  {
    var k := (t + ck) / 0xFFFF;
    var h := ck / 0x100;
    assert t + ck % 0x100 == -0x100 * h + 0xFFFF * k;
    ModShift(-0x100 * h, k);
  }

  /** Whether a sent n-byte message passes, given its checksum and what the receiver finds in the field. */
  predicate Passes(n: nat, ck: uint16, field: uint16) {
    || n >= 4
    || (n == 3 && field != 0xFFFF && ck < 0x100)
    || ((n < 3 || field == 0xFFFF) && ck == 0xFFFF)
  }

  lemma LongVerdict(addrs: seq<byte>, data: seq<byte>, ck: uint16)
    requires |addrs| % 2 == 0 && 4 <= |data| <= ICMP6_MAX_PAYLOAD && Zeroed(data)
    requires ck == WireChecksum(PseudoSum(addrs, |data|, HDR_ICMP6, data))
    ensures PseudoTotal(addrs, |data|, HDR_ICMP6, WithChecksum(data, ck)) % 0xFFFF == 0
  {
    assert data == data[..2] + Le16(0) + data[4..];
    SentBody(data, ck);
    CompletedSum(addrs, |data|, HDR_ICMP6, data[..2], data[4..], ck);
  }

  lemma ThreeByteVerdict(addrs: seq<byte>, data: seq<byte>, ck: uint16)
    requires |addrs| % 2 == 0 && |data| == 3 && Zeroed(data)
    requires ck == WireChecksum(PseudoSum(addrs, 3, HDR_ICMP6, data))
    ensures var t := PseudoTotal(addrs, 3, HDR_ICMP6, WithChecksum(data, ck));
            && (t % 0xFFFF == 0 <==> ck < 0x100)
            && (ck % 0x100 == 0xFF ==> (t % 0xFFFF == 0xFF <==> ck == 0xFFFF))
  {
    var pre := data[..2];
    var t := PseudoTotal(addrs, 3, HDR_ICMP6, data);
    assert data == pre + [0];
    SentBody(data, ck);
    SentTotal(addrs, data, ck);
    LastByte(addrs, 3, HDR_ICMP6, pre, 0);
    LastByte(addrs, 3, HDR_ICMP6, pre, ck % 0x100);
    LowByteSent(t, ck);
    ModLess(t + ck % 0x100, ck % 0x100);
  }

  /**
   * Sending: for every length, a message sent with a zeroed checksum field passes the receiver's
   * test if and only if the field the receiver reads is not zero and, below 4 bytes, the part of
   * the checksum that was cut off does not matter.
   */
  lemma SendVerdict(st: Stack, dmac: Mac, data: seq<byte>, dst: Ip6, rest: seq<byte>)
    requires |data| <= ICMP6_MAX_PAYLOAD && Zeroed(data) && |data| + |rest| >= 4
    ensures var f := IcmpFrame(st, dmac, data, dst) + rest;
            && |f| == 54 + |data| + |rest|
            && (|data| >= 4 ==> FieldLe16(f, 56) == SentChecksum(st, data, dst) != 0)
            && (IcmpTest(f, |data|)
                <==> FieldLe16(f, 56) != 0 && Passes(|data|, SentChecksum(st, data, dst), FieldLe16(f, 56)))
  {
    var ck := SentChecksum(st, data, dst);
    var body := WithChecksum(data, ck);
    var f := IcmpFrame(st, dmac, data, dst) + rest;
    SentBody(data, ck);
    FrameFields(dmac, st.mac, st.ip, dst, HDR_ICMP6, body, rest);
    SentTotal(st.ip + dst, data, ck);
    BufferVerdict(f, 56, |data|, HDR_ICMP6);
    if |data| >= 4 {
      LongVerdict(st.ip + dst, data, ck);
      SubSlice(f, 54, body, 2, 4);
      Be16At(f, 56, ck);
    } else if |data| == 3 {
      ThreeByteVerdict(st.ip + dst, data, ck);
      SubSlice(f, 54, body, 2, 3);
      assert f[56] == f[56..57][0] == ck % 0x100;
    }
  }

  // --- answers ---

  lemma EchoFields(b: seq<byte>, n: nat)
    requires 58 <= |b| && 54 + n <= |b|
    ensures var d := Splice(Splice(b, 56, [0, 0]), 54, [ICMP6_ECHO_REPLY])[54..54 + n];
            && Zeroed(d) && (n >= 1 ==> d[0] == ICMP6_ECHO_REPLY)
            && (forall i :: 0 <= i < n && i != 0 && i != 2 && i != 3 ==> d[i] == b[54 + i])
  {
    var c := Splice(b, 56, [0, 0]);
    var e := Splice(c, 54, [ICMP6_ECHO_REPLY]);
    assert c == b[..56] + [0, 0] + b[58..];
    assert e == c[..54] + [ICMP6_ECHO_REPLY] + c[55..];
    assert e[54] == ICMP6_ECHO_REPLY && e[56] == 0 && e[57] == 0;
  }

  /** d repeats the n-byte request in buf apart from its type and its checksum, which is zeroed. */
  predicate EchoOf(d: seq<byte>, buf: seq<byte>, n: nat)
    requires 54 + n <= |buf|
  {
    && |d| == n && (n >= 1 ==> d[0] == 129)
    && (forall i :: 0 <= i < n && i != 0 && i != 2 && i != 3 ==> d[i] == buf[54 + i])
  }

  /** What icmp6_recv answers, in terms of the received bytes. */
  lemma ReplyContents(st: Stack, buf: seq<byte>, n: uint16)
    requires |buf| == ETH_MTU && 54 + n <= |buf| && IcmpRecv(st, buf, n).Reply?
    ensures var d := IcmpRecv(st, buf, n).data;
            && Zeroed(d)
            && (buf[54] != ICMP6_ECHO_REQUEST ==> d == NdpAdvert(st))
            && (buf[54] == ICMP6_ECHO_REQUEST ==> EchoOf(d, buf, n))
  {
    var b := Normalize(buf, 56);
    assert forall j :: 54 <= j < 54 + n && j != 56 && j != 57 ==> b[j] == buf[j];
    assert b[54] == buf[54];
    if b[54] == ICMP6_ECHO_REQUEST {
      EchoFields(b, n);
    } else {
      assert NdpAdvert(st)[2] == NdpAdvert(st)[3] == 0;
    }
  }

  /** A solicited, overriding neighbour advertisement of target, with mac as its link-layer address. */
  predicate IsAdvertFor(d: seq<byte>, target: seq<byte>, mac: Mac) {
    && |d| == 32 && d[0] == 136 && d[1] == 0
    && d[4..8] == [0x60, 0, 0, 0] && d[8..24] == target
    && d[24] == 2 && d[25] == 1 && d[26..32] == mac
  }

  lemma AdvertFields(st: Stack)
    ensures IsAdvertFor(NdpAdvert(st), st.ip, st.mac)
  {
  }

  /**
   * Replies: a solicitation is answered with an advertisement of the solicited target; the reply
   * to an echo request repeats it byte for byte apart from type and checksum; every reply fits a
   * frame and has a zeroed checksum field.
   */
  lemma RepliesAreValid(st: Stack, buf: seq<byte>, len: nat)
    requires |buf| == ETH_MTU && len <= ETH_MTU
    requires EthRecv(st, buf, len).1.Reply?
    ensures var act := EthRecv(st, buf, len).1;
            && 54 + Be16(buf, 18) <= len && |act.data| <= ICMP6_MAX_PAYLOAD && Zeroed(act.data)
            && (buf[54] == 128 ==> EchoOf(act.data, buf, Be16(buf, 18)))
            && (buf[54] != 128 ==> IsAdvertFor(act.data, buf[62..78], st.mac))
  {
    var (st', act) := EthRecv(st, buf, len);
    ReplyContents(st', buf, Be16(buf, 18));
    if buf[54] != ICMP6_ECHO_REQUEST {
      AdvertFields(st');
      assert Normalize(buf, 56)[62..78] == buf[62..78];
    }
  }

  /**
   * The frame with which an answer arrives: it passes the receiver's checksum test if and only
   * if it has 4 bytes or more, or what was cut off its checksum does not matter.
   */
  lemma ReplyVerdict(st: Stack, buf: seq<byte>, len: nat, rest: seq<byte>)
    requires |buf| == ETH_MTU && len <= ETH_MTU && EthRecv(st, buf, len).1.Reply?
    requires |EthRecv(st, buf, len).1.data| + |rest| >= 4
    ensures var act := EthRecv(st, buf, len).1;
            var n := |act.data|;
            && n <= ICMP6_MAX_PAYLOAD
            && var f := IcmpFrame(st, ReplyMac(buf), act.data, act.to) + rest;
               && |f| == 54 + n + |rest| && (n >= 4 ==> IcmpTest(f, n))
               && (IcmpTest(f, n)
                   <==> FieldLe16(f, 56) != 0 && Passes(n, SentChecksum(st, act.data, act.to), FieldLe16(f, 56)))
  {
    var act := EthRecv(st, buf, len).1;
    RepliesAreValid(st, buf, len);
    SendVerdict(st, ReplyMac(buf), act.data, act.to, rest);
  }

  // --- echo requests below 4 bytes ---

  lemma SwapAddrs(a: Ip6, b: Ip6, n: uint16, next: byte, body: seq<byte>)
    ensures PseudoTotal(a + b, n, next, body) == PseudoTotal(b + a, n, next, body)
  {
    SumAppend(a + b, body);
    SumAppend(b + a, body);
    SumAppend(a, b);
    SumAppend(b, a);
  }

  /** From request to reply the sum grows by one for the type and loses the checksum byte. */
  lemma ShortEchoTotal(addrs: seq<byte>, n: uint16, body: seq<byte>, d: seq<byte>)
    requires |addrs| % 2 == 0 && 1 <= |body| == |d| <= 3 && Zeroed(d)
    requires body[0] == ICMP6_ECHO_REQUEST && d[0] == ICMP6_ECHO_REPLY && (|d| >= 2 ==> d[1] == body[1])
    ensures PseudoTotal(addrs, n, HDR_ICMP6, d)
            == PseudoTotal(addrs, n, HDR_ICMP6, body) + 1 - if |d| == 3 then body[2] else 0
  {
    SumAppend(addrs, body);
    SumAppend(addrs, d);
    if |d| == 3 {
      assert body == body[..2] + [body[2]] && d == d[..2] + [d[2]];
      SumAppend(body[..2], [body[2]]);
      SumAppend(d[..2], [d[2]]);
      SumPair(body[0], body[1], []);
      SumPair(d[0], d[1], []);
      assert body[..2] == [body[0], body[1]] && d[..2] == [d[0], d[1]];
    } else if |d| == 2 {
      SumPair(body[0], body[1], []);
      SumPair(d[0], d[1], []);
      assert body == [body[0], body[1]] && d == [d[0], d[1]];
    }
  }

  /** The checksum of a reply whose sum is that of a right request, plus 1, minus x. */
  lemma ShortChecksum(t: int, x: byte, ck: uint16)
    requires t % 0xFFFF == 0 && ck != 0 && (t + 1 - x + ck) % 0xFFFF == 0
    ensures ck == if x >= 2 then x - 1 else if x == 1 then 0xFFFF else 0xFFFE
  {
    ModShift(1 - x + ck, t / 0xFFFF);
  }

  lemma ShortCases(t: nat, t': nat, n: nat, x: byte, cut: bool, ck: uint16)
    requires 1 <= n <= 3 && (cut ==> n == 3 && x == 0xFF) && t % 0xFFFF == if cut then 0xFF else 0
    requires t' == t + 1 - (if n == 3 then x else 0) && ck != 0 && (t' + ck) % 0xFFFF == 0
    ensures ck == if n < 3 || cut || x == 0 then 0xFFFE else if x == 1 then 0xFFFF else x - 1
  {
    if cut {
      ModLess(t, 0xFF);
      ShortChecksum(t - 0xFF, 0, ck);
    } else {
      ShortChecksum(t, if n == 3 then x else 0, ck);
    }
  }

  /** The checksum of the reply to an n-byte echo request that was sent to this stack's own address. */
  lemma ShortReplyChecksum(st: Stack, buf: seq<byte>, n: uint16, d: seq<byte>)
    requires |buf| == ETH_MTU && n <= 3 && buf[38..54] == st.ip && buf[54] == ICMP6_ECHO_REQUEST
    requires BufferTotal(buf, n, HDR_ICMP6) % 0xFFFF == if CutField(buf, 56, n) then 0xFF else 0
    requires EchoOf(d, buf, n) && Zeroed(d)
    ensures var ck := SentChecksum(st, d, buf[22..38]);
            ck == if n == 0 then 0xFFFF
                  else if n < 3 || CutField(buf, 56, n) || buf[56] == 0 then 0xFFFE
                  else if buf[56] == 1 then 0xFFFF
                  else buf[56] - 1
  {
    var src: Ip6 := buf[22..38];
    var body := buf[54..54 + n];
    var t := BufferTotal(buf, n, HDR_ICMP6);
    var ck := SentChecksum(st, d, src);
    assert buf[22..54] == src + st.ip;
    SwapAddrs(src, st.ip, n, HDR_ICMP6, body);
    SentTotal(st.ip + src, d, ck);
    if n == 0 {
      assert d == body;
    } else {
      assert body[0] == buf[54];
      if n >= 2 {
        assert body[1] == buf[54 + 1] == d[1];
      }
      if n == 3 {
        assert body[2] == buf[56];
      }
      ShortEchoTotal(st.ip + src, n, body, d);
      ShortCases(t, PseudoTotal(st.ip + src, n, HDR_ICMP6, d), n, buf[56], CutField(buf, 56, n), ck);
    }
  }

  /** The two bytes a receiver takes for the checksum of a 3-byte message. */
  lemma ThreeByteField(st: Stack, dmac: Mac, d: seq<byte>, dst: Ip6, rest: seq<byte>)
    requires |d| == 3 && |rest| >= 1
    ensures var f := IcmpFrame(st, dmac, d, dst) + rest;
            |f| == 57 + |rest| && FieldLe16(f, 56) == Word16(SentChecksum(st, d, dst) % 0x100, rest[0])
  {
    var ck := SentChecksum(st, d, dst);
    var body := WithChecksum(d, ck);
    var f := IcmpFrame(st, dmac, d, dst) + rest;
    SentBody(d, ck);
    FrameFields(dmac, st.mac, st.ip, dst, HDR_ICMP6, body, rest);
    SubSlice(f, 54, body, 2, 3);
    assert f[56] == f[56..57][0] == ck % 0x100;
    assert f[57] == rest[0];
  }

  /** The reply to a short request to this stack's own address, with its checksum. */
  lemma ShortReply(st: Stack, buf: seq<byte>, len: nat)
    requires |buf| == ETH_MTU && len <= ETH_MTU && EthRecv(st, buf, len).1.Reply?
    requires Be16(buf, 18) <= 3 && buf[38..54] == st.ip
    ensures var act := EthRecv(st, buf, len).1;
            var n := Be16(buf, 18);
            && |act.data| == n
            && SentChecksum(st, act.data, act.to)
               == if n == 0 then 0xFFFF
                  else if n < 3 || CutField(buf, 56, n) || buf[56] == 0 then 0xFFFE
                  else if buf[56] == 1 then 0xFFFF
                  else buf[56] - 1
  {
    var act := EthRecv(st, buf, len).1;
    RepliesAreValid(st, buf, len);
    ReplySound(st, buf, len);
    ReplyRouting(st, buf, len);
    assert buf[54] == ICMP6_ECHO_REQUEST;
    ShortReplyChecksum(st, buf, Be16(buf, 18), act.data);
  }

  /** When the reply passes, given the request's checksum byte x and whether its field was rewritten. */
  lemma ThreeBytesPass(x: byte, ck: uint16, cut: bool, next: byte)
    requires ck == if cut || x == 0 then 0xFFFE else if x == 1 then 0xFFFF else x - 1
    ensures var field := Word16(ck % 0x100, next);
            field != 0 && Passes(3, ck, field) <==> !cut && (x >= 2 || (x == 1 && next == 0xFF))
  {
  }

  /**
   * Answers to echo requests below 4 bytes that were sent to the stack's own address: exactly
   * which of them pass the receiver's checksum test, in terms of the request. An empty one
   * passes if the receiver finds a non-zero field, one of 1 or 2 bytes never does, and one of
   * 3 bytes depends on the checksum byte of the request.
   */
  lemma ShortEchoVerdict(st: Stack, buf: seq<byte>, len: nat, rest: seq<byte>)
    requires |buf| == ETH_MTU && len <= ETH_MTU && EthRecv(st, buf, len).1.Reply?
    requires Be16(buf, 18) <= 3 && buf[38..54] == st.ip && |rest| >= 4
    ensures var act := EthRecv(st, buf, len).1;
            var n := Be16(buf, 18);
            && |act.data| == n
            && var f := IcmpFrame(st, ReplyMac(buf), act.data, act.to) + rest;
               && |f| == 54 + n + |rest|
               && (IcmpTest(f, n) <==>
                     if n == 0 then FieldLe16(f, 56) != 0
                     else n == 3 && FieldLe16(buf, 56) != 0xFFFF
                          && (buf[56] >= 2 || (buf[56] == 1 && rest[0] == 0xFF)))
  {
    var act := EthRecv(st, buf, len).1;
    ShortReply(st, buf, len);
    ReplyVerdict(st, buf, len, rest);
    var ck := SentChecksum(st, act.data, act.to);
    if Be16(buf, 18) == 3 {
      ThreeByteField(st, ReplyMac(buf), act.data, act.to, rest);
      ThreeBytesPass(buf[56], ck, FieldLe16(buf, 56) == 0xFFFF, rest[0]);
    }
  }

  // --- round trips ---

  lemma MessageArrives(a: Stack, b: Stack, dmac: Mac, data: seq<byte>, dst: Ip6, rest: seq<byte>, len: nat)
    requires 4 <= |data| <= ICMP6_MAX_PAYLOAD && Zeroed(data) && (dst == b.ip || dst == b.snm)
    requires 54 + |data| + |rest| == ETH_MTU && 54 + |data| <= len <= ETH_MTU
    ensures var f := IcmpFrame(a, dmac, data, dst) + rest;
            var b' := b.(rxMac := a.mac, rxIp := a.ip);
            && |f| == ETH_MTU && IcmpTest(f, |data|) && EthRecv(b, f, len) == (b', IcmpRecv(b', f, |data|))
            && f[22..38] == a.ip && f[54..56] == data[..2] && f[58..54 + |data|] == data[4..]
  {
    var ck := SentChecksum(a, data, dst);
    var body := WithChecksum(data, ck);
    var f := IcmpFrame(a, dmac, data, dst) + rest;
    SentBody(data, ck);
    SendVerdict(a, dmac, data, dst, rest);
    FrameReaches(b, dmac, a.mac, a.ip, dst, HDR_ICMP6, body, rest, len);
    FrameFields(dmac, a.mac, a.ip, dst, HDR_ICMP6, body, rest);
    SubSlice(f, 54, body, 0, 2);
    SubSlice(f, 54, body, 4, |data|);
  }

  lemma EchoBytes(d: seq<byte>, f: seq<byte>, data: seq<byte>)
    requires 4 <= |data| && 54 + |data| <= |f| && Zeroed(d) && Zeroed(data) && EchoOf(d, f, |data|)
    requires f[55] == data[1] && f[58..54 + |data|] == data[4..]
    ensures d == [ICMP6_ECHO_REPLY] + data[1..]
  {
    assert d[1] == f[54 + 1];
    forall i | 1 <= i < |data| ensures d[i] == data[i] {
      if i >= 4 {
        assert data[4..][i - 4] == f[58..54 + |data|][i - 4] == f[54 + i];
      }
    }
  }

  /**
   * Echo: a request sent by icmp6_send, with any padding, is answered by the stack that owns the
   * address with the same bytes as a reply, to the sender.
   */
  lemma EchoRoundTrip(a: Stack, b: Stack, dmac: Mac, data: seq<byte>, dst: Ip6, rest: seq<byte>, len: nat)
    requires 4 <= |data| <= ICMP6_MAX_PAYLOAD && Zeroed(data) && data[0] == ICMP6_ECHO_REQUEST
    requires dst == b.ip || dst == b.snm
    requires 54 + |data| + |rest| == ETH_MTU && 54 + |data| <= len <= ETH_MTU
    ensures var f := IcmpFrame(a, dmac, data, dst) + rest;
            && |f| == ETH_MTU
            && EthRecv(b, f, len)
               == (b.(rxMac := a.mac, rxIp := a.ip), Reply([ICMP6_ECHO_REPLY] + data[1..], a.ip))
  {
    var f := IcmpFrame(a, dmac, data, dst) + rest;
    var b' := b.(rxMac := a.mac, rxIp := a.ip);
    MessageArrives(a, b, dmac, data, dst, rest, len);
    assert f[54] == f[54..56][0] && f[55] == f[54..56][1];
    assert Normalize(f, 56)[22..38] == f[22..38];
    ReplyContents(b', f, |data|);
    var d := IcmpRecv(b', f, |data|).data;
    EchoBytes(d, f, data);
  }

  /** Neighbour discovery: a solicitation of this stack's address is answered with its advertisement. */
  lemma SolicitationAnswered(a: Stack, b: Stack, dmac: Mac, data: seq<byte>, dst: Ip6, rest: seq<byte>, len: nat)
    requires 24 <= |data| <= ICMP6_MAX_PAYLOAD && Zeroed(data) && data[..2] == [ICMP6_NDP_N_SOLICIT, 0]
    requires data[8..24] == b.ip && (dst == b.ip || dst == b.snm)
    requires 54 + |data| + |rest| == ETH_MTU && 54 + |data| <= len <= ETH_MTU
    ensures var f := IcmpFrame(a, dmac, data, dst) + rest;
            && |f| == ETH_MTU
            && EthRecv(b, f, len).1.Reply? && EthRecv(b, f, len).1.to == a.ip
            && IsAdvertFor(EthRecv(b, f, len).1.data, b.ip, b.mac)
  {
    var f := IcmpFrame(a, dmac, data, dst) + rest;
    var b' := b.(rxMac := a.mac, rxIp := a.ip);
    MessageArrives(a, b, dmac, data, dst, rest, len);
    assert f[54] == f[54..56][0] && f[55] == f[54..56][1];
    assert Normalize(f, 56)[22..38] == f[22..38];
    SubSlice(f, 58, data[4..], 4, 20);
    assert data[4..][4..20] == data[8..24];
    assert Normalize(f, 56)[62..78] == f[62..78];
    AdvertFields(b');
  }

  // --- frames that show the conditions are needed ---

  lemma FittingWord(c: nat, goal: nat) returns (w: uint16)
    requires goal < 0xFFFF
    ensures (c + w) % 0xFFFF == goal
  {
    var x := c % 0xFFFF;
    w := if x <= goal then goal - x else goal + 0xFFFF - x;
    ModShift(x + w, c / 0xFFFF);
  }

  lemma LeadingWord(w: uint16, z: seq<byte>, n: uint16, body: seq<byte>)
    ensures PseudoTotal(Le16(w) + z, n, HDR_ICMP6, body) == PseudoTotal(z, n, HDR_ICMP6, body) + w
  {
    assert Le16(w) + z + body == Le16(w) + (z + body);
    SumPair(w % 0x100, w / 0x100, z + body);
  }

  /** For every message there is a source address with which its sum has any wanted residue. */
  lemma FittingSource(dst: Ip6, n: uint16, body: seq<byte>, goal: nat) returns (src: Ip6)
    requires goal < 0xFFFF
    ensures PseudoTotal(src + dst, n, HDR_ICMP6, body) % 0xFFFF == goal
  {
    var z: seq<byte> := dst[2..] + dst;
    var w := FittingWord(PseudoTotal(z, n, HDR_ICMP6, body), goal);
    src := Le16(w) + dst[2..];
    assert src + dst == Le16(w) + z;
    LeadingWord(w, z, n, body);
  }

  /** A frame to this stack with a short body; rest is what the receive buffer holds behind it. */
  lemma CraftedFrame(st: Stack, src: Ip6, body: seq<byte>, rest: seq<byte>) returns (buf: seq<byte>)
    requires |body| + |rest| == ICMP6_MAX_PAYLOAD && 1 <= |body| <= 3
    ensures |buf| == ETH_MTU && Be16(buf, 18) == |body| && buf[38..54] == st.ip && buf[54..] == body + rest
    ensures buf[54] == body[0] && buf[56] == (body + rest)[2] && buf[57] == (body + rest)[3]
    ensures BufferTotal(buf, |body|, HDR_ICMP6) == PseudoTotal(src + st.ip, |body|, HDR_ICMP6, body)
    ensures var st' := st.(rxMac := st.mac, rxIp := src);
            EthRecv(st, buf, 54 + |body|) == (st', IcmpRecv(st', buf, |body|))
  {
    buf := Frame(st.mac, st.mac, src, st.ip, HDR_ICMP6, body) + rest;
    FrameFields(st.mac, st.mac, src, st.ip, HDR_ICMP6, body, rest);
    FrameReaches(st, st.mac, st.mac, src, st.ip, HDR_ICMP6, body, rest, 54 + |body|);
    assert buf[54..] == body + rest;
  }

  lemma EchoAnswered(st: Stack, buf: seq<byte>, n: uint16)
    requires |buf| == ETH_MTU && n <= 3 && buf[54] == ICMP6_ECHO_REQUEST && FieldLe16(buf, 56) != 0
    requires BufferTotal(buf, n, HDR_ICMP6) % 0xFFFF == if CutField(buf, 56, n) then 0xFF else 0
    ensures IcmpRecv(st, buf, n).Reply? && SumOk(Normalize(buf, 56), n, HDR_ICMP6)
  {
    BufferVerdict(buf, 56, n, HDR_ICMP6);
    assert Normalize(buf, 56)[54] == buf[54];
  }

  /** Every stack answers some 3-byte message that would fail without the rewriting. */
  lemma RewritingMatters(st: Stack) returns (buf: seq<byte>)
    ensures |buf| == ETH_MTU && Be16(buf, 18) == 3
    ensures EthRecv(st, buf, 57).1.Reply? && SumOk(Normalize(buf, 56), 3, HDR_ICMP6) && !SumOk(buf, 3, HDR_ICMP6)
  {
    var body := [ICMP6_ECHO_REQUEST, 0, 0xFF];
    var src := FittingSource(st.ip, 3, body, 0xFF);
    buf := CraftedFrame(st, src, body, seq(ICMP6_MAX_PAYLOAD - 3, i => 0xFF));
    EchoAnswered(st.(rxMac := st.mac, rxIp := src), buf, 3);
    VerdictIsResidue(buf[22..54], 3, HDR_ICMP6, buf[54..57]);
  }

  /** Every stack answers some 1-byte echo request with a reply that no receiver accepts. */
  lemma ShortReplyFails(st: Stack) returns (buf: seq<byte>)
    ensures |buf| == ETH_MTU && EthRecv(st, buf, 55).1.Reply?
    ensures var act := EthRecv(st, buf, 55).1;
            && |act.data| == 1
            && forall rest: seq<byte> :: |rest| >= 4 ==>
                 && 59 <= |IcmpFrame(st, ReplyMac(buf), act.data, act.to) + rest|
                 && !IcmpTest(IcmpFrame(st, ReplyMac(buf), act.data, act.to) + rest, 1)
  {
    var body := [ICMP6_ECHO_REQUEST];
    var src := FittingSource(st.ip, 1, body, 0);
    buf := CraftedFrame(st, src, body, seq(ICMP6_MAX_PAYLOAD - 1, i => 1));
    EchoAnswered(st.(rxMac := st.mac, rxIp := src), buf, 1);
    var act := EthRecv(st, buf, 55).1;
    RepliesAreValid(st, buf, 55);
    forall rest: seq<byte> | |rest| >= 4
      ensures 59 <= |IcmpFrame(st, ReplyMac(buf), act.data, act.to) + rest|
              && !IcmpTest(IcmpFrame(st, ReplyMac(buf), act.data, act.to) + rest, 1)
    {
      ShortEchoVerdict(st, buf, 55, rest);
    }
  }
}
