/** The way of an acknowledgement: from the received frame, through the protocol, back to the host. */
module AckPath {
  import opened Bytes
  import opened NbMessage
  import opened Inet6
  import Target

  /**
   * When a received frame delivers a protocol message that the target answers, the answer
   * resolves to a MAC address, and the frame udp6_send builds for it delivers, at the stack the
   * message came from, a datagram from the protocol's port that parses to that answer.
   */
  lemma AnswerReachesSender(st: Stack, host: Stack, t: Target.TargetState, buf: seq<byte>, len: nat,
                            m: Msg, rest: seq<byte>, len': nat)
    requires |buf| == ETH_MTU && len <= ETH_MTU
    requires var act := EthRecv(st, buf, len).1;
             act.Deliver? && act.dport == NB_SERVER_PORT && act.saddr == host.ip && Parse(act.payload) == Full(m)
    requires Target.Handle(t, m).1.Some?
    requires |rest| == ETH_MTU - 62 - HEADER_LEN && 62 + HEADER_LEN <= len' <= ETH_MTU
    ensures var (st', act) := EthRecv(st, buf, len);
            var ack := Target.Handle(t, m).1.value;
            && |Encode(ack)| <= UDP6_MAX_PAYLOAD
            && Resolve(st', act.saddr) == Some(ReplyMac(buf))
            && Parse(Encode(ack)) == Full(ack) && ack.cookie == m.cookie
            && var frame := UdpFrame(st', ReplyMac(buf), Encode(ack), act.saddr, act.sport, NB_SERVER_PORT);
               && |frame + rest| == ETH_MTU
               && EthRecv(host, frame + rest, len').1
                  == Deliver(Encode(ack), host.ip, act.sport, st.ip, NB_SERVER_PORT)
  {
    var (st', act) := EthRecv(st, buf, len);
    var ack := Target.Handle(t, m).1.value;
    AckIsBare(t, m);
    ReplyRouting(st, buf, len);
    var ck := UdpChecksum(st'.ip, act.saddr, act.sport, NB_SERVER_PORT, Encode(ack));
    SegmentFields(NB_SERVER_PORT, act.sport, ck, Encode(ack));
    UdpRoundTrip(st', host, ReplyMac(buf), Encode(ack), act.saddr, act.sport, NB_SERVER_PORT, rest, len');
    ParseEncode(ack);
  }

  lemma AckIsBare(t: Target.TargetState, m: Msg)
    requires Target.Handle(t, m).1.Some?
    ensures var ack := Target.Handle(t, m).1.value;
            ack.data == [] && ack.cookie == m.cookie && ack.magic == NB_MAGIC
  {
  }
}
