/** The same host and target over a channel that loses datagrams but keeps their order. */
module Fifo {
  import opened Bytes
  import opened NbMessage
  import opened Target
  import opened Host
  import opened Network
  import Reordering

  /** sys carries the system and its history; the queues hold what is in flight. */
  datatype FifoSystem = FifoSystem(sys: System, upq: seq<Msg>, downq: seq<Msg>)

  datatype FifoStep = HostMove(ev: HostEvent) | Receive | LoseUp(i: nat) | LoseDown(i: nat)

  predicate ReadsAck(ev: HostEvent) {
    ev.Socket? && ev.e.ReadOk? && ev.e.d.Full?
  }

  /** What is in flight was sent. */
  predicate WellFormed(file: seq<byte>, f: FifoSystem) {
    && HostValid(file, f.sys.h)
    && (forall i :: 0 <= i < |f.upq| ==> f.upq[i] in f.sys.up)
    && (forall i :: 0 <= i < |f.downq| ==> f.downq[i] in f.sys.down)
  }

  predicate FifoInit(f: FifoSystem) {
    Init(f.sys) && f.upq == [] && f.downq == []
  }

  predicate FifoEnabled(f: FifoSystem, step: FifoStep) {
    match step
    case HostMove(ev) =>
      && HostEnabled(f.sys.h, ev) && NoWrap(f.sys.h, ev)
      && (ReadsAck(ev) ==> f.downq != [] && ev.e.d.msg == f.downq[0])
    case Receive => f.upq != []
    case LoseUp(i) => i < |f.upq|
    case LoseDown(i) => i < |f.downq|
  }

  function Enqueue(q: seq<Msg>, m: Option<Msg>): seq<Msg> {
    if m.Some? then q + [m.value] else q
  }

  function Without(q: seq<Msg>, i: nat): (r: seq<Msg>)
    requires i < |q|
    ensures |r| == |q| - 1
    ensures forall j :: 0 <= j < |r| ==> r[j] == if j < i then q[j] else q[j + 1]
  {
    q[..i] + q[i + 1..]
  }

  function FifoApply(file: seq<byte>, f: FifoSystem, step: FifoStep): (r: FifoSystem)
    requires WellFormed(file, f) && FifoEnabled(f, step)
    ensures WellFormed(file, r)
  {
    match step
    case HostMove(ev) =>
      FifoSystem(Apply(file, f.sys, HostAct(ev)),
                 Enqueue(f.upq, HostStep(file, f.sys.h, ev).1),
                 if ReadsAck(ev) then f.downq[1..] else f.downq)
    case Receive =>
      FifoSystem(Apply(file, f.sys, Deliver(f.upq[0])),
                 f.upq[1..],
                 Enqueue(f.downq, Handle(f.sys.t, f.upq[0]).1))
    case LoseUp(i) => f.(upq := Without(f.upq, i))
    case LoseDown(i) => f.(downq := Without(f.downq, i))
  }

  predicate FifoRun(file: seq<byte>, f: FifoSystem, steps: seq<FifoStep>)
    requires WellFormed(file, f)
    decreases |steps|
  {
    steps == [] || (FifoEnabled(f, steps[0]) && FifoRun(file, FifoApply(file, f, steps[0]), steps[1..]))
  }

  function FifoExec(file: seq<byte>, f: FifoSystem, steps: seq<FifoStep>): (r: FifoSystem)
    requires WellFormed(file, f) && FifoRun(file, f, steps)
    ensures WellFormed(file, r)
    decreases |steps|
  {
    if steps == [] then f else FifoExec(file, FifoApply(file, f, steps[0]), steps[1..])
  }

  // --- the invariant ---

  /** Cookies never decrease along the path: answers, target, queue, host. */
  predicate Ordered(h: HostState, t: TargetState, upq: seq<Msg>, downq: seq<Msg>) {
    && t.lastCookie < h.cookie
    && (forall i, j :: 0 <= i < j < |upq| ==> upq[i].cookie <= upq[j].cookie)
    && (forall i :: 0 <= i < |upq| ==> t.lastCookie <= upq[i].cookie)
    && (forall i :: 0 <= i < |downq| ==> downq[i].cookie <= t.lastCookie)
  }

  predicate KernelAt(t: TargetState, offset: nat) {
    t.item == Some(Kernel) && t.files[Kernel].offset == offset
  }

  /** m is a copy of the request that brought the transfer to pos. */
  predicate Stale(m: Msg, cookie: int, pos: nat) {
    m.cookie == cookie
    && ((m.cmd == NB_SEND_FILE && pos == 0) || (m.cmd == NB_DATA && m.arg + |m.data| == pos))
  }

  /** The target's write pointer once the call has been acknowledged. */
  predicate Done(t: TargetState, io: Io, pos: nat) {
    && t.lastCookie == io.msg.cookie
    && KernelAt(t, if io.msg.cmd == NB_SEND_FILE then 0 else pos + |io.msg.data|)
  }

  predicate AcksTell(t: TargetState, downq: seq<Msg>, io: Io, pos: nat) {
    && (forall i :: 0 <= i < |downq| && downq[i].cookie == io.msg.cookie && downq[i].cmd == NB_ACK ==> Done(t, io, pos))
    && (t.lastCookie == io.msg.cookie && t.lastAckCmd == NB_ACK ==> Done(t, io, pos))
  }

  /** After the file was opened: the target is at pos, or has just handled the current request. */
  predicate InStep(t: TargetState, upq: seq<Msg>, io: Io, pos: nat) {
    && (|| (t.lastCookie == io.msg.cookie - 1 && KernelAt(t, pos))
        || (t.lastCookie == io.msg.cookie && KernelAt(t, pos) && t.lastAckCmd != NB_ACK)
        || Done(t, io, pos))
    && (forall i :: 0 <= i < |upq| ==> upq[i] == io.msg || Stale(upq[i], io.msg.cookie - 1, pos))
  }

  predicate PhaseOk(h: HostState, t: TargetState, upq: seq<Msg>, downq: seq<Msg>) {
    match h.phase
    case Idle => true
    case Ready(pos) =>
      && t.lastCookie == h.cookie - 1 && KernelAt(t, pos)
      && (forall i :: 0 <= i < |upq| ==> Stale(upq[i], h.cookie - 1, pos))
    case Busy(io, pos) =>
      && AcksTell(t, downq, io, pos)
      && (io.msg.cmd != NB_SEND_FILE ==> InStep(t, upq, io, pos))
  }

  /** A boot request in flight finds the whole file, and nothing before it reopens the file. */
  predicate BootOk(file: seq<byte>, t: TargetState, upq: seq<Msg>) {
    forall i :: 0 <= i < |upq| && upq[i].cmd == NB_BOOT ==>
      Complete(file, t) && (file == [] || forall j :: 0 <= j < i ==> upq[j].cmd != NB_SEND_FILE)
  }

  predicate FifoInv(file: seq<byte>, f: FifoSystem) {
    && Reordering.Inv(file, f.sys)
    && WellFormed(file, f)
    && Ordered(f.sys.h, f.sys.t, f.upq, f.downq)
    && PhaseOk(f.sys.h, f.sys.t, f.upq, f.downq)
    && BootOk(file, f.sys.t, f.upq)
  }

  lemma FifoInitInv(file: seq<byte>, f: FifoSystem)
    requires FifoInit(f)
    ensures FifoInv(file, f)
  {
    Reordering.InitInv(file, f.sys);
  }

  // --- loss ---

  lemma LoseBootOk(file: seq<byte>, t: TargetState, upq: seq<Msg>, i: nat)
    requires BootOk(file, t, upq) && i < |upq|
    ensures BootOk(file, t, Without(upq, i))
  {
    var q := Without(upq, i);
    forall k | 0 <= k < |q| && q[k].cmd == NB_BOOT
      ensures Complete(file, t) && (file == [] || forall j :: 0 <= j < k ==> q[j].cmd != NB_SEND_FILE)
    {
      assert upq[if k < i then k else k + 1].cmd == NB_BOOT;
    }
  }

  lemma LoseOrdered(h: HostState, t: TargetState, upq: seq<Msg>, downq: seq<Msg>, i: nat)
    requires Ordered(h, t, upq, downq) && PhaseOk(h, t, upq, downq) && i < |upq|
    ensures Ordered(h, t, Without(upq, i), downq) && PhaseOk(h, t, Without(upq, i), downq)
  {
  }

  lemma LoseUpOk(file: seq<byte>, f: FifoSystem, i: nat)
    requires FifoInv(file, f) && i < |f.upq|
    ensures FifoInv(file, FifoApply(file, f, LoseUp(i)))
  {
    LoseBootOk(file, f.sys.t, f.upq, i);
    LoseOrdered(f.sys.h, f.sys.t, f.upq, f.downq, i);
  }

  lemma LoseDownOk(file: seq<byte>, f: FifoSystem, i: nat)
    requires FifoInv(file, f) && i < |f.downq|
    ensures FifoInv(file, FifoApply(file, f, LoseDown(i)))
  {
  }

  // --- the target receives the head of the queue ---

  /** What delivery of any message of a transfer does to the cookies. */
  lemma ReceiveCookies(file: seq<byte>, t: TargetState, m: Msg)
    requires TargetOk(file, t) && Legit(file, m) && t.lastCookie <= m.cookie
    ensures var u := Poll(t, m); t.lastCookie <= u.lastCookie <= m.cookie
    ensures var u := Poll(t, m); var r := Handle(t, m).1;
            r.Some? ==> r.value.cookie == m.cookie == u.lastCookie && r.value.cmd == u.lastAckCmd
  {
    if m.cmd == NB_SEND_FILE {
      HandleSendFile(file, t, m);
    } else if m.cmd == NB_BOOT {
      HandleBoot(file, t, m);
    } else if Accepts(t, m) {
      HandleDataStored(file, t, m);
    } else {
      HandleDataRefused(file, t, m);
    }
  }

  lemma ReceiveOrdered(file: seq<byte>, h: HostState, t: TargetState, upq: seq<Msg>, downq: seq<Msg>)
    requires TargetOk(file, t) && Ordered(h, t, upq, downq)
    requires upq != [] && Legit(file, upq[0]) && upq[0].cookie < h.cookie
    ensures Ordered(h, Poll(t, upq[0]), upq[1..], Enqueue(downq, Handle(t, upq[0]).1))
  {
    ReceiveCookies(file, t, upq[0]);
  }

  /** Once the file is complete no message but a reopening one changes the files. */
  lemma ReceiveFull(file: seq<byte>, t: TargetState, m: Msg)
    requires TargetOk(file, t) && Legit(file, m) && Complete(file, t)
    requires m.cmd == NB_SEND_FILE ==> file == []
    ensures Complete(file, Poll(t, m))
  {
    if m.cmd == NB_SEND_FILE {
      HandleSendFile(file, t, m);
    } else if m.cmd == NB_BOOT {
      HandleBoot(file, t, m);
    } else {
      HandleDataRefused(file, t, m);
    }
  }

  lemma ReceiveBootOk(file: seq<byte>, t: TargetState, upq: seq<Msg>)
    requires TargetOk(file, t) && BootOk(file, t, upq)
    requires upq != [] && Legit(file, upq[0])
    ensures BootOk(file, Poll(t, upq[0]), upq[1..])
  {
    var q := upq[1..];
    forall i | 0 <= i < |q| && q[i].cmd == NB_BOOT
      ensures Complete(file, Poll(t, upq[0])) && (file == [] || forall j :: 0 <= j < i ==> q[j].cmd != NB_SEND_FILE)
    {
      assert upq[i + 1].cmd == NB_BOOT;
      ReceiveFull(file, t, upq[0]);
    }
  }

  /** A copy of an earlier request leaves a target that is at pos where it is. */
  lemma ReceiveStale(file: seq<byte>, t: TargetState, m: Msg, pos: nat)
    requires TargetOk(file, t) && Legit(file, m) && KernelAt(t, pos)
    requires t.lastCookie == m.cookie && Stale(m, m.cookie, pos)
    ensures KernelAt(Poll(t, m), pos) && Poll(t, m).lastCookie == m.cookie
  {
    if m.cmd == NB_SEND_FILE {
      HandleSendFile(file, t, m);
    } else {
      HandleDataRefused(file, t, m);
    }
  }

  lemma ReceiveReady(file: seq<byte>, h: HostState, t: TargetState, upq: seq<Msg>, downq: seq<Msg>)
    requires TargetOk(file, t) && PhaseOk(h, t, upq, downq) && h.phase.Ready?
    requires upq != [] && Legit(file, upq[0])
    ensures PhaseOk(h, Poll(t, upq[0]), upq[1..], Enqueue(downq, Handle(t, upq[0]).1))
  {
    ReceiveStale(file, t, upq[0], h.phase.pos);
  }

  /** The current request reaches a target that is in step. */
  lemma ReceiveCurrent(file: seq<byte>, t: TargetState, io: Io, pos: nat)
    requires TargetOk(file, t) && Legit(file, io.msg) && io.msg.cmd != NB_SEND_FILE
    requires io.msg.cmd == NB_DATA ==> io.msg.arg == pos
    requires t.lastAckCmd == NB_ACK && t.lastCookie == io.msg.cookie ==> Done(t, io, pos)
    requires || (t.lastCookie == io.msg.cookie - 1 && KernelAt(t, pos))
             || (t.lastCookie == io.msg.cookie && KernelAt(t, pos) && t.lastAckCmd != NB_ACK)
             || Done(t, io, pos)
    ensures var u := Poll(t, io.msg);
            && (|| (u.lastCookie == io.msg.cookie - 1 && KernelAt(u, pos))
                || (u.lastCookie == io.msg.cookie && KernelAt(u, pos) && u.lastAckCmd != NB_ACK)
                || Done(u, io, pos))
            && (u.lastCookie == io.msg.cookie && u.lastAckCmd == NB_ACK ==> Done(u, io, pos))
            && (Done(t, io, pos) ==> Done(u, io, pos))
  {
    if io.msg.cmd == NB_BOOT {
      HandleBoot(file, t, io.msg);
    } else if Accepts(t, io.msg) {
      HandleDataStored(file, t, io.msg);
    } else {
      HandleDataRefused(file, t, io.msg);
    }
  }

  lemma ReceiveAhead(file: seq<byte>, h: HostState, t: TargetState, upq: seq<Msg>, downq: seq<Msg>)
    requires TargetOk(file, t) && PhaseOk(h, t, upq, downq) && Reordering.HostOk(file, h)
    requires h.phase.Busy? && h.phase.io.msg.cmd != NB_SEND_FILE
    requires upq != [] && Legit(file, upq[0]) && t.lastCookie <= upq[0].cookie
    ensures PhaseOk(h, Poll(t, upq[0]), upq[1..], Enqueue(downq, Handle(t, upq[0]).1))
  {
    var io := h.phase.io;
    ReceiveCookies(file, t, upq[0]);
    if upq[0] == io.msg {
      ReceiveCurrent(file, t, io, h.phase.pos);
    } else {
      ReceiveStale(file, t, upq[0], h.phase.pos);
    }
  }

  /** While the file is being opened only an answer to that very request tells anything. */
  lemma ReceiveOpening(file: seq<byte>, h: HostState, t: TargetState, upq: seq<Msg>, downq: seq<Msg>)
    requires TargetOk(file, t) && PhaseOk(h, t, upq, downq)
    requires h.phase.Busy? && h.phase.io.msg.cmd == NB_SEND_FILE
    requires upq != [] && Legit(file, upq[0])
    requires upq[0].cookie == h.phase.io.msg.cookie ==> upq[0] == h.phase.io.msg
    requires t.lastCookie <= upq[0].cookie <= h.phase.io.msg.cookie
    requires forall i :: 0 <= i < |downq| ==> downq[i].cookie <= t.lastCookie
    ensures PhaseOk(h, Poll(t, upq[0]), upq[1..], Enqueue(downq, Handle(t, upq[0]).1))
  {
    ReceiveCookies(file, t, upq[0]);
    if upq[0] == h.phase.io.msg {
      HandleSendFile(file, t, upq[0]);
    }
  }

  lemma ReceiveOk(file: seq<byte>, f: FifoSystem)
    requires FifoInv(file, f) && f.upq != []
    ensures FifoInv(file, FifoApply(file, f, Receive))
  {
    var m := f.upq[0];
    assert m in f.sys.up;
    Reordering.DeliverOk(file, f.sys, m);
    ReceiveOrdered(file, f.sys.h, f.sys.t, f.upq, f.downq);
    ReceiveBootOk(file, f.sys.t, f.upq);
    match f.sys.h.phase
    case Idle =>
    case Ready(_) => ReceiveReady(file, f.sys.h, f.sys.t, f.upq, f.downq);
    case Busy(io, _) =>
      if io.msg.cmd == NB_SEND_FILE {
        ReceiveOpening(file, f.sys.h, f.sys.t, f.upq, f.downq);
      } else {
        ReceiveAhead(file, f.sys.h, f.sys.t, f.upq, f.downq);
      }
  }

  // --- the host moves ---

  /** A new call starts with a cookie nobody has seen. */
  lemma BeginPhase(h: HostState, t: TargetState, upq: seq<Msg>, downq: seq<Msg>, m: Msg, pos: nat)
    requires Ordered(h, t, upq, downq) && PhaseOk(h, t, upq, downq) && h.cookie + 1 < TWO32
    requires m.cmd == NB_SEND_FILE || h.phase == Ready(pos)
    ensures Ordered(Begin(h, m, pos), t, upq, downq) && PhaseOk(Begin(h, m, pos), t, upq, downq)
  {
  }

  lemma StartOk(file: seq<byte>, f: FifoSystem)
    requires FifoInv(file, f) && FifoEnabled(f, HostMove(Start))
    ensures FifoInv(file, FifoApply(file, f, HostMove(Start)))
  {
    Reordering.StepInv(file, f.sys, HostAct(Start));
    BeginPhase(f.sys.h, f.sys.t, f.upq, f.downq, SendFileMsg(), 0);
  }

  lemma ReadFileOk(file: seq<byte>, f: FifoSystem, r: Fread)
    requires FifoInv(file, f) && FifoEnabled(f, HostMove(Read(r)))
    ensures FifoInv(file, FifoApply(file, f, HostMove(Read(r))))
  {
    Reordering.StepInv(file, f.sys, HostAct(Read(r)));
    ReadPhase(file, f.sys.h, f.sys.t, f.upq, f.downq, r);
  }

  lemma ReadPhase(file: seq<byte>, h: HostState, t: TargetState, upq: seq<Msg>, downq: seq<Msg>, r: Fread)
    requires HostValid(file, h) && h.phase.Ready? && h.cookie + 1 < TWO32
    requires Ordered(h, t, upq, downq) && PhaseOk(h, t, upq, downq)
    ensures var g := HostStep(file, h, Read(r)).0;
            Ordered(g, t, upq, downq) && PhaseOk(g, t, upq, downq)
  {
    var pos := h.phase.pos;
    var n := FreadLen(file, pos, r);
    if n > 0 {
      BeginPhase(h, t, upq, downq, DataMsg(file, pos, n), pos);
    } else if r.FreadOk? {
      BeginPhase(h, t, upq, downq, BootMsg(), pos);
    }
  }

  lemma SendPhase(file: seq<byte>, h: HostState, t: TargetState, upq: seq<Msg>, downq: seq<Msg>)
    requires Ordered(h, t, upq, downq) && PhaseOk(h, t, upq, downq)
    requires Reordering.HostOk(file, h) && h.phase.Busy?
    requires forall i :: 0 <= i < |upq| ==> upq[i].cookie < h.cookie
    ensures var g := h.(phase := Busy(h.phase.io.(pc := Reading), h.phase.pos));
            var q := upq + [h.phase.io.msg];
            Ordered(g, t, q, downq) && PhaseOk(g, t, q, downq)
  {
  }

  lemma SendBootOk(file: seq<byte>, t: TargetState, upq: seq<Msg>, io: Io, pos: nat)
    requires Prefix(file, t) && BootOk(file, t, upq)
    requires io.msg.cmd == NB_BOOT ==> InStep(t, upq, io, pos) && pos == |file| && io.msg.data == []
    ensures BootOk(file, t, upq + [io.msg])
  {
    var q := upq + [io.msg];
    forall i | 0 <= i < |q| && q[i].cmd == NB_BOOT
      ensures Complete(file, t) && (file == [] || forall j :: 0 <= j < i ==> q[j].cmd != NB_SEND_FILE)
    {
      if i < |upq| {
        assert upq[i].cmd == NB_BOOT;
      }
    }
  }

  lemma SendOk(file: seq<byte>, f: FifoSystem)
    requires FifoInv(file, f) && FifoEnabled(f, HostMove(Socket(WriteOk)))
    ensures FifoInv(file, FifoApply(file, f, HostMove(Socket(WriteOk))))
  {
    Reordering.StepInv(file, f.sys, HostAct(Socket(WriteOk)));
    SendPhase(file, f.sys.h, f.sys.t, f.upq, f.downq);
    SendBootOk(file, f.sys.t, f.upq, f.sys.h.phase.io, f.sys.h.phase.pos);
  }

  /**
   * Ack means stored, at this very moment: when io returns 0 the target's last handled
   * call is this one and its write pointer is just behind the block, whatever copies of
   * the request are still queued.
   */
  lemma AckMeansOffset(file: seq<byte>, f: FifoSystem, d: Datagram)
    requires FifoInv(file, f) && f.sys.h.phase.Busy?
    requires f.downq != [] && d == Full(f.downq[0]) && Matches(f.sys.h.phase.io.msg, d)
    ensures Done(f.sys.t, f.sys.h.phase.io, f.sys.h.phase.pos)
    ensures forall i :: 0 <= i < |f.upq| ==> f.upq[i] == f.sys.h.phase.io.msg
  {
    assert f.downq[0].cookie == f.sys.h.phase.io.msg.cookie;
  }

  lemma SuccessPhase(h: HostState, t: TargetState, upq: seq<Msg>, downq: seq<Msg>)
    requires Ordered(h, t, upq, downq) && downq != []
    requires h.phase.Busy? && h.phase.io.msg.cookie == h.cookie - 1
    requires h.phase.io.msg.cmd == NB_DATA ==> h.phase.io.msg.arg == h.phase.pos
    requires Done(t, h.phase.io, h.phase.pos)
    requires forall i :: 0 <= i < |upq| ==> upq[i] == h.phase.io.msg
    ensures var g := h.(phase := Acked(h.phase.io.msg, h.phase.pos));
            Ordered(g, t, upq, downq[1..]) && PhaseOk(g, t, upq, downq[1..])
  {
  }

  lemma SuccessShape(file: seq<byte>, f: FifoSystem, d: Datagram)
    requires WellFormed(file, f) && FifoEnabled(f, HostMove(Socket(ReadOk(d))))
    requires Matches(f.sys.h.phase.io.msg, d)
    ensures var h := f.sys.h;
            var sys := f.sys.(h := h.(phase := Acked(h.phase.io.msg, h.phase.pos)));
            && FifoApply(file, f, HostMove(Socket(ReadOk(d)))) == FifoSystem(sys, f.upq, f.downq[1..])
            && Apply(file, f.sys, HostAct(Socket(ReadOk(d)))) == sys
  {
  }

  lemma SuccessOk(file: seq<byte>, f: FifoSystem, d: Datagram)
    requires FifoInv(file, f) && FifoEnabled(f, HostMove(Socket(ReadOk(d))))
    requires Matches(f.sys.h.phase.io.msg, d)
    ensures FifoInv(file, FifoApply(file, f, HostMove(Socket(ReadOk(d)))))
  {
    SuccessShape(file, f, d);
    AckMeansOffset(file, f, d);
    SuccessPhase(f.sys.h, f.sys.t, f.upq, f.downq);
    assert Reordering.Inv(file, FifoApply(file, f, HostMove(Socket(ReadOk(d)))).sys) by {
      Reordering.StepInv(file, f.sys, HostAct(Socket(ReadOk(d))));
    }
  }

  /** A step of io that neither sends nor succeeds, with at most the head of the answers read. */
  lemma WaitPhase(h: HostState, t: TargetState, upq: seq<Msg>, downq: seq<Msg>, p: Phase, n: nat)
    requires Ordered(h, t, upq, downq) && PhaseOk(h, t, upq, downq)
    requires h.phase.Busy? && n <= |downq|
    requires p.Idle? || (p.Busy? && p.io.msg == h.phase.io.msg && p.pos == h.phase.pos)
    ensures Ordered(h.(phase := p), t, upq, downq[n..])
    ensures PhaseOk(h.(phase := p), t, upq, downq[n..])
  {
    forall i | 0 <= i < |downq[n..]| ensures downq[n..][i] == downq[n + i] {
    }
  }

  lemma WaitOk(file: seq<byte>, f: FifoSystem, e: IoEvent)
    requires FifoInv(file, f) && FifoEnabled(f, HostMove(Socket(e)))
    requires !e.WriteOk? && !IoStep(f.sys.h.phase.io, e).Success?
    ensures FifoInv(file, FifoApply(file, f, HostMove(Socket(e))))
  {
    Reordering.StepInv(file, f.sys, HostAct(Socket(e)));
    var p := FifoApply(file, f, HostMove(Socket(e))).sys.h.phase;
    var n := if ReadsAck(Socket(e)) then 1 else 0;
    WaitPhase(f.sys.h, f.sys.t, f.upq, f.downq, p, n);
    assert f.downq[0..] == f.downq;
  }

  lemma FifoStepInv(file: seq<byte>, f: FifoSystem, step: FifoStep)
    requires FifoInv(file, f) && FifoEnabled(f, step)
    ensures FifoInv(file, FifoApply(file, f, step))
  {
    match step
    case Receive => ReceiveOk(file, f);
    case LoseUp(i) => LoseUpOk(file, f, i);
    case LoseDown(i) => LoseDownOk(file, f, i);
    case HostMove(ev) =>
      match ev
      case Start => StartOk(file, f);
      case Read(r) => ReadFileOk(file, f, r);
      case Socket(e) =>
        if e.WriteOk? {
          SendOk(file, f);
        } else if IoStep(f.sys.h.phase.io, e).Success? {
          SuccessOk(file, f, e.d);
        } else {
          WaitOk(file, f, e);
        }
  }

  // --- every run ---

  lemma {:induction false} FifoRunInv(file: seq<byte>, f: FifoSystem, steps: seq<FifoStep>)
    requires FifoInv(file, f) && FifoRun(file, f, steps)
    ensures FifoInv(file, FifoExec(file, f, steps))
    decreases |steps|
  {
    if steps != [] {
      FifoStepInv(file, f, steps[0]);
      FifoRunInv(file, FifoApply(file, f, steps[0]), steps[1..]);
    }
  }

  /**
   * End-to-end boot safety: in every run, over any number of completed and aborted
   * transfers, a message that makes the target boot finds the kernel buffer holding
   * exactly the file.
   */
  lemma BootSafety(file: seq<byte>, f: FifoSystem, steps: seq<FifoStep>)
    requires FifoInit(f) && FifoRun(file, f, steps)
    ensures var g := FifoExec(file, f, steps);
            g.upq != [] && Boots(g.sys.t, g.upq[0]) ==>
              var k := g.sys.t.files[Kernel];
              k.offset == |file| && k.offset <= |k.data| && k.data[..k.offset] == file
  {
    FifoInitInv(file, f);
    FifoRunInv(file, f, steps);
    var g := FifoExec(file, f, steps);
    if g.upq != [] && Boots(g.sys.t, g.upq[0]) {
      assert g.upq[0] in g.sys.up;
      Reordering.DeliverTargetOk(file, g.sys.t, g.upq[0]);
      assert file[..|file|] == file;
    }
  }
}
