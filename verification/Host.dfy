/** The host side of the transfer: `io` and `xfer` of src/nbserver.c as step functions. */
module Host {
  import opened Bytes
  import opened NbMessage
  import Target

  const RETRIES: nat := 5
  const BLOCK: nat := 1024

  // --- io: one request, retried until its ack arrives ---

  datatype IoPc = Writing | Reading

  /** A call of io in progress: the message, the retries left, the system call made next. */
  datatype Io = Io(msg: Msg, retries: nat, pc: IoPc)

  /** The outcome of one write or read on the socket; Blocked and Timeout are EAGAIN. */
  datatype IoEvent =
    | WriteOk | WriteBlocked | WriteFailed
    | ReadTimeout | ReadFailed | ReadOk(d: Datagram)

  datatype IoStatus = Pending(io: Io) | Success | Failure

  predicate IsWrite(e: IoEvent) {
    e.WriteOk? || e.WriteBlocked? || e.WriteFailed?
  }

  /** e is an outcome of the system call io makes next. */
  predicate Asks(io: Io, e: IoEvent) {
    IsWrite(e) <==> io.pc == Writing
  }

  /** The datagram is the acknowledgement of msg. */
  predicate Matches(msg: Msg, d: Datagram) {
    && d.Full?
    && d.msg.magic == NB_MAGIC
    && d.msg.cookie == msg.cookie
    && d.msg.arg == msg.arg
    && d.msg.cmd == NB_ACK
  }

  function IoStep(io: Io, e: IoEvent): IoStatus
    requires Asks(io, e)
  {
    match e
    case WriteOk => Pending(io.(pc := Reading))
    case WriteBlocked => Pending(io)
    case WriteFailed => Failure
    case ReadTimeout =>
      if io.retries > 1 then Pending(Io(io.msg, io.retries - 1, Writing)) else Failure
    case ReadFailed => Failure
    case ReadOk(d) => if Matches(io.msg, d) then Success else Pending(io)
  }

  function IoBegin(m: Msg, cookie: uint32): Io {
    Io(m.(magic := NB_MAGIC, cookie := cookie), RETRIES, Writing)
  }

  /** evs is a run of the call, ending no later than its return. */
  predicate IoTrace(s: IoStatus, evs: seq<IoEvent>)
    decreases |evs|
  {
    evs == [] || (s.Pending? && Asks(s.io, evs[0]) && IoTrace(IoStep(s.io, evs[0]), evs[1..]))
  }

  function IoAfter(s: IoStatus, evs: seq<IoEvent>): IoStatus
    requires IoTrace(s, evs)
    decreases |evs|
  {
    if evs == [] then s else IoAfter(IoStep(s.io, evs[0]), evs[1..])
  }

  /** A blocked write or a datagram that is not the awaited ack: the call just goes on. */
  predicate Idles(msg: Msg, e: IoEvent) {
    e.WriteBlocked? || (e.ReadOk? && !Matches(msg, e.d))
  }

  lemma {:induction false} IoTraceSnoc(s: IoStatus, evs: seq<IoEvent>, e: IoEvent)
    requires IoTrace(s, evs) && IoAfter(s, evs).Pending? && Asks(IoAfter(s, evs).io, e)
    ensures IoTrace(s, evs + [e]) && IoAfter(s, evs + [e]) == IoStep(IoAfter(s, evs).io, e)
    decreases |evs|
  {
    if evs == [] {
      assert evs + [e] == [e] && [e][1..] == [];
      assert IoTrace(IoStep(s.io, e), []) && IoAfter(IoStep(s.io, e), []) == IoStep(s.io, e);
    } else {
      assert (evs + [e])[0] == evs[0] && (evs + [e])[1..] == evs[1..] + [e];
      IoTraceSnoc(IoStep(s.io, evs[0]), evs[1..], e);
    }
  }

  function Writes(evs: seq<IoEvent>): nat {
    if evs == [] then 0 else (if evs[0].WriteOk? then 1 else 0) + Writes(evs[1..])
  }

  function Timeouts(evs: seq<IoEvent>): nat {
    if evs == [] then 0 else (if evs[0].ReadTimeout? then 1 else 0) + Timeouts(evs[1..])
  }

  function IdleSteps(msg: Msg, evs: seq<IoEvent>): nat {
    if evs == [] then 0 else (if Idles(msg, evs[0]) then 1 else 0) + IdleSteps(msg, evs[1..])
  }

  /** Steps a call can take at most, not counting the idle ones. */
  function Fuel(s: IoStatus): nat {
    match s
    case Pending(io) => if io.pc == Writing then 2 * io.retries else if io.retries == 0 then 0 else 2 * io.retries - 1
    case _ => 0
  }

  predicate ValidStatus(s: IoStatus) {
    s.Pending? ==> s.io.retries >= 1
  }

  lemma {:induction false} IoRunBounds(s: IoStatus, evs: seq<IoEvent>, msg: Msg)
    requires ValidStatus(s) && IoTrace(s, evs)
    requires s.Pending? ==> s.io.msg == msg
    ensures ValidStatus(IoAfter(s, evs))
    ensures 2 * Writes(evs) <= Fuel(s) + (if s.Pending? && s.io.pc == Reading then -1 else 0)
    ensures |evs| + Fuel(IoAfter(s, evs)) <= Fuel(s) + IdleSteps(msg, evs)
    decreases |evs|
  {
    if evs != [] {
      IoRunBounds(IoStep(s.io, evs[0]), evs[1..], msg);
    }
  }

  lemma {:induction false} IoRunResult(s: IoStatus, evs: seq<IoEvent>, msg: Msg)
    requires ValidStatus(s) && IoTrace(s, evs)
    requires s.Pending? && s.io.msg == msg
    ensures IoAfter(s, evs).Pending? ==> IoAfter(s, evs).io.msg == msg
    ensures forall i :: 0 <= i < |evs| && evs[i].ReadOk? && Matches(msg, evs[i].d) ==>
              i == |evs| - 1 && IoAfter(s, evs).Success?
    ensures IoAfter(s, evs).Success? ==>
              evs != [] && evs[|evs| - 1].ReadOk? && Matches(msg, evs[|evs| - 1].d)
    ensures IoAfter(s, evs).Failure? <==>
              || (evs != [] && (evs[|evs| - 1].WriteFailed? || evs[|evs| - 1].ReadFailed?))
              || Timeouts(evs) == s.io.retries
    decreases |evs|
  {
    if evs != [] {
      var n := IoStep(s.io, evs[0]);
      if n.Pending? {
        IoRunResult(n, evs[1..], msg);
      } else {
        assert evs[1..] == [] && IoAfter(n, []) == n;
      }
    }
  }

  /**
   * One call of io, for every sequence of socket outcomes: at most five datagrams are
   * written; the call ends within ten steps plus one for every blocked write and every
   * datagram that is not its ack; it succeeds exactly when the ack of this very call is
   * read; it fails exactly on a socket error or the fifth timeout.
   */
  lemma RetryBound(m: Msg, cookie: uint32, evs: seq<IoEvent>)
    requires IoTrace(Pending(IoBegin(m, cookie)), evs)
    ensures var msg := IoBegin(m, cookie).msg;
            var end := IoAfter(Pending(IoBegin(m, cookie)), evs);
            && Writes(evs) <= 5
            && |evs| <= 10 + IdleSteps(msg, evs)
            && (|evs| == 10 + IdleSteps(msg, evs) ==> !end.Pending?)
            && (end.Success? <==> exists i :: 0 <= i < |evs| && evs[i].ReadOk? && Matches(msg, evs[i].d))
            && (end.Failure? <==>
                  || (evs != [] && (evs[|evs| - 1].WriteFailed? || evs[|evs| - 1].ReadFailed?))
                  || Timeouts(evs) == 5)
  {
    var s := Pending(IoBegin(m, cookie));
    IoRunBounds(s, evs, s.io.msg);
    IoRunResult(s, evs, s.io.msg);
  }

  lemma {:induction false} RetransmitsFrom(s: IoStatus, evs: seq<IoEvent>)
    requires ValidStatus(s) && s.Pending? && IoTrace(s, evs)
    ensures var end := IoAfter(s, evs);
            var waits := if s.io.pc == Reading then 1 else 0;
            && (end.Pending? ==>
                  end.io.msg == s.io.msg && end.io.retries == s.io.retries - Timeouts(evs)
                  && waits + Writes(evs) == Timeouts(evs) + if end.io.pc == Reading then 1 else 0)
            && (end.Success? ==> waits + Writes(evs) == Timeouts(evs) + 1)
            && (end.Failure? ==> waits + Writes(evs) <= Timeouts(evs) + 1)
            && (Timeouts(evs) == s.io.retries ==> waits + Writes(evs) == s.io.retries)
    ensures forall i :: 0 <= i < |evs| - 1 && (evs[i].ReadTimeout? || evs[i].WriteBlocked?) ==> IsWrite(evs[i + 1])
    ensures forall i :: 0 <= i < |evs| - 1 && (evs[i].WriteOk? || evs[i].ReadOk?) ==> !IsWrite(evs[i + 1])
    decreases |evs|
  {
    if evs != [] {
      var n := IoStep(s.io, evs[0]);
      assert |evs| > 1 ==> evs[1..][0] == evs[1];
      if n.Pending? {
        RetransmitsFrom(n, evs[1..]);
        forall i | 1 <= i < |evs| - 1 ensures evs[i] == evs[1..][i - 1] && evs[i + 1] == evs[1..][i] {
        }
      } else {
        assert evs[1..] == [] && IoAfter(n, []) == n;
      }
    }
  }

  /**
   * Retransmission, for every sequence of socket outcomes: the request is written once at the
   * start and once more after every timeout but the fifth, never without one; so while io waits
   * for an answer there is one more copy than there were timeouts.
   */
  lemma Retransmission(m: Msg, cookie: uint32, evs: seq<IoEvent>)
    requires IoTrace(Pending(IoBegin(m, cookie)), evs)
    ensures var end := IoAfter(Pending(IoBegin(m, cookie)), evs);
            && (end.Pending? ==> Writes(evs) == Timeouts(evs) + if end.io.pc == Reading then 1 else 0)
            && (end.Success? ==> Writes(evs) == Timeouts(evs) + 1)
            && (Timeouts(evs) == 5 ==> Writes(evs) == 5)
    ensures forall i :: 0 <= i < |evs| - 1 && evs[i].ReadTimeout? ==> IsWrite(evs[i + 1])
    ensures forall i :: 0 <= i < |evs| - 1 && (evs[i].WriteOk? || evs[i].ReadOk?) ==> !IsWrite(evs[i + 1])
    ensures evs != [] ==> IsWrite(evs[0])
  {
    RetransmitsFrom(Pending(IoBegin(m, cookie)), evs);
  }

  // --- xfer: the transfer of one file ---

  /** A call of fread: without error it fills the block or stops at the end of the file. */
  datatype Fread = FreadOk | FreadError(n: nat)

  datatype Phase = Idle | Busy(io: Io, pos: nat) | Ready(pos: nat)

  /** cookie is the static counter of src/nbserver.c; pos is the position in the file. */
  datatype HostState = HostState(cookie: uint32, phase: Phase)

  datatype HostEvent = Start | Read(f: Fread) | Socket(e: IoEvent)

  function Min(a: nat, b: nat): nat {
    if a < b then a else b
  }

  function FreadLen(file: seq<byte>, pos: nat, f: Fread): (r: nat)
    requires pos <= |file|
    ensures r <= BLOCK && pos + r <= |file|
    ensures r == 0 && f.FreadOk? ==> pos == |file|
  {
    match f
    case FreadOk => Min(BLOCK, |file| - pos)
    case FreadError(n) => Min(n, Min(BLOCK, |file| - pos))
  }

  predicate HostValid(file: seq<byte>, h: HostState) {
    match h.phase
    case Idle => true
    case Ready(pos) => pos <= |file|
    case Busy(io, pos) =>
      io.retries >= 1 && pos <= |file| && (io.msg.cmd == NB_DATA ==> pos + |io.msg.data| <= |file|)
  }

  predicate HostEnabled(h: HostState, ev: HostEvent) {
    match ev
    case Start => h.phase.Idle?
    case Read(_) => h.phase.Ready?
    case Socket(e) => h.phase.Busy? && Asks(h.phase.io, e)
  }

  function Begin(h: HostState, m: Msg, pos: nat): HostState {
    HostState((h.cookie + 1) % TWO32, Busy(IoBegin(m, h.cookie), pos))
  }

  function SendFileMsg(): Msg {
    Msg(0, 0, NB_SEND_FILE, 0, Target.KERNEL_NAME)
  }

  function DataMsg(file: seq<byte>, pos: nat, r: nat): Msg
    requires pos + r <= |file|
  {
    Msg(0, 0, NB_DATA, pos % TWO32, file[pos..pos + r])
  }

  function BootMsg(): Msg {
    Msg(0, 0, NB_BOOT, 0, [])
  }

  /** Where xfer goes when io returns 0. */
  function Acked(m: Msg, pos: nat): Phase {
    if m.cmd == NB_SEND_FILE then Ready(0)
    else if m.cmd == NB_DATA then Ready(pos + |m.data|)
    else Idle
  }

  /** One step of the host and the datagram it hands to the network, if any. */
  function HostStep(file: seq<byte>, h: HostState, ev: HostEvent): (r: (HostState, Option<Msg>))
    requires HostValid(file, h) && HostEnabled(h, ev)
    ensures HostValid(file, r.0)
  {
    match ev
    case Start => (Begin(h, SendFileMsg(), 0), None)
    case Read(f) =>
      var pos := h.phase.pos;
      var r := FreadLen(file, pos, f);
      if r > 0 then (Begin(h, DataMsg(file, pos, r), pos), None)
      else if f.FreadError? then (h.(phase := Idle), None)
      else (Begin(h, BootMsg(), pos), None)
    case Socket(e) =>
      var phase := match IoStep(h.phase.io, e)
                   case Pending(io) => Busy(io, h.phase.pos)
                   case Success => Acked(h.phase.io.msg, h.phase.pos)
                   case Failure => Idle;
      (h.(phase := phase), if e.WriteOk? then Some(h.phase.io.msg) else None)
  }

  predicate HostTrace(file: seq<byte>, h: HostState, evs: seq<HostEvent>)
    requires HostValid(file, h)
    decreases |evs|
  {
    evs == [] || (HostEnabled(h, evs[0]) && HostTrace(file, HostStep(file, h, evs[0]).0, evs[1..]))
  }

  function HostAfter(file: seq<byte>, h: HostState, evs: seq<HostEvent>): (r: HostState)
    requires HostValid(file, h) && HostTrace(file, h, evs)
    ensures HostValid(file, r)
    decreases |evs|
  {
    if evs == [] then h else HostAfter(file, HostStep(file, h, evs[0]).0, evs[1..])
  }

  lemma {:induction false} HostTraceJoin(file: seq<byte>, h: HostState, a: seq<HostEvent>, b: seq<HostEvent>)
    requires HostValid(file, h) && HostTrace(file, h, a) && HostTrace(file, HostAfter(file, h, a), b)
    ensures HostTrace(file, h, a + b)
    ensures HostAfter(file, h, a + b) == HostAfter(file, HostAfter(file, h, a), b)
    decreases |a|
  {
    if a == [] {
      assert a + b == b;
    } else {
      assert (a + b)[0] == a[0] && (a + b)[1..] == a[1..] + b;
      HostTraceJoin(file, HostStep(file, h, a[0]).0, a[1..], b);
    }
  }

  function Lift(evs: seq<IoEvent>): (r: seq<HostEvent>)
    ensures |r| == |evs|
  {
    if evs == [] then [] else [Socket(evs[0])] + Lift(evs[1..])
  }

  /** A whole call of io, seen as steps of the host. */
  lemma {:induction false} HostCall(file: seq<byte>, h: HostState, evs: seq<IoEvent>)
    requires HostValid(file, h) && h.phase.Busy?
    requires IoTrace(Pending(h.phase.io), evs) && !IoAfter(Pending(h.phase.io), evs).Pending?
    ensures HostTrace(file, h, Lift(evs))
    ensures HostAfter(file, h, Lift(evs)) ==
            h.(phase := if IoAfter(Pending(h.phase.io), evs).Success? then Acked(h.phase.io.msg, h.phase.pos) else Idle)
    decreases |evs|
  {
    assert Lift(evs)[1..] == Lift(evs[1..]);
    var n := IoStep(h.phase.io, evs[0]);
    if n.Pending? {
      HostCall(file, HostStep(file, h, Socket(evs[0])).0, evs[1..]);
    } else {
      assert evs[1..] == [] && IoAfter(n, []) == n;
    }
  }

  // --- what a run of the host does ---

  /** A datagram written, a request acknowledged, and xfer giving up. */
  datatype Note = Wrote(m: Msg) | GotAck(m: Msg) | Quit

  function StepNotes(file: seq<byte>, h: HostState, ev: HostEvent): seq<Note>
    requires HostValid(file, h) && HostEnabled(h, ev)
  {
    match ev
    case Start => []
    case Read(f) => if f.FreadError? && FreadLen(file, h.phase.pos, f) == 0 then [Quit] else []
    case Socket(e) =>
      var m := h.phase.io.msg;
      if e.WriteOk? then [Wrote(m)]
      else if e.ReadOk? && Matches(m, e.d) then [GotAck(m)]
      else if IoStep(h.phase.io, e).Failure? then [Quit]
      else []
  }

  function Notes(file: seq<byte>, h: HostState, evs: seq<HostEvent>): seq<Note>
    requires HostValid(file, h) && HostTrace(file, h, evs)
    decreases |evs|
  {
    if evs == [] then []
    else StepNotes(file, h, evs[0]) + Notes(file, HostStep(file, h, evs[0]).0, evs[1..])
  }

  lemma {:induction false} NotesJoin(file: seq<byte>, h: HostState, a: seq<HostEvent>, b: seq<HostEvent>)
    requires HostValid(file, h) && HostTrace(file, h, a) && HostTrace(file, HostAfter(file, h, a), b)
    ensures HostTrace(file, h, a + b)
    ensures Notes(file, h, a + b) == Notes(file, h, a) + Notes(file, HostAfter(file, h, a), b)
    decreases |a|
  {
    if a == [] {
      assert a + b == b;
    } else {
      assert (a + b)[0] == a[0] && (a + b)[1..] == a[1..] + b;
      var g := HostStep(file, h, a[0]).0;
      NotesJoin(file, g, a[1..], b);
      Assoc(StepNotes(file, h, a[0]), Notes(file, g, a[1..]), Notes(file, HostAfter(file, h, a), b));
    }
  }

  function Copies(m: Msg, n: nat): seq<Note> {
    if n == 0 then [] else [Wrote(m)] + Copies(m, n - 1)
  }

  /** A whole call of io writes copies of its request, then is acknowledged or gives up. */
  lemma {:induction false} CallNotes(file: seq<byte>, h: HostState, evs: seq<IoEvent>)
    requires HostValid(file, h) && h.phase.Busy?
    requires IoTrace(Pending(h.phase.io), evs) && !IoAfter(Pending(h.phase.io), evs).Pending?
    ensures HostTrace(file, h, Lift(evs))
    ensures Notes(file, h, Lift(evs)) ==
            Copies(h.phase.io.msg, Writes(evs))
            + [if IoAfter(Pending(h.phase.io), evs).Success? then GotAck(h.phase.io.msg) else Quit]
    decreases |evs|
  {
    HostCall(file, h, evs);
    assert Lift(evs)[0] == Socket(evs[0]) && Lift(evs)[1..] == Lift(evs[1..]);
    var n := IoStep(h.phase.io, evs[0]);
    if n.Pending? {
      var m := h.phase.io.msg;
      CallNotes(file, HostStep(file, h, Socket(evs[0])).0, evs[1..]);
      Assoc(StepNotes(file, h, Socket(evs[0])), Copies(m, Writes(evs[1..])),
            [if IoAfter(n, evs[1..]).Success? then GotAck(m) else Quit]);
    } else {
      assert evs[1..] == [] && IoAfter(n, []) == n && Writes(evs[1..]) == 0;
    }
  }

  /** The data of the blocks that were acknowledged, in order. */
  function AckedData(notes: seq<Note>): seq<byte> {
    if notes == [] then [] else AckedBlock(notes[0]) + AckedData(notes[1..])
  }

  function AckedBlock(note: Note): seq<byte> {
    if note.GotAck? && note.m.cmd == NB_DATA then note.m.data else []
  }

  lemma {:induction false} AckedDataJoin(a: seq<Note>, b: seq<Note>)
    ensures AckedData(a + b) == AckedData(a) + AckedData(b)
  {
    if a == [] {
      assert a + b == b;
    } else {
      assert (a + b)[0] == a[0] && (a + b)[1..] == a[1..] + b;
      AckedDataJoin(a[1..], b);
      Assoc(AckedBlock(a[0]), AckedData(a[1..]), AckedData(b));
    }
  }

  lemma {:induction false} CopiesAck(m: Msg, n: nat)
    ensures AckedData(Copies(m, n)) == []
    ensures forall i :: 0 <= i < |Copies(m, n)| ==> Copies(m, n)[i] == Wrote(m)
  {
    if n > 0 {
      CopiesAck(m, n - 1);
      assert Copies(m, n)[1..] == Copies(m, n - 1);
    }
  }

  /** The boot request was acknowledged. */
  predicate BootAcked(notes: seq<Note>) {
    exists i :: 0 <= i < |notes| && notes[i].GotAck? && notes[i].m.cmd == NB_BOOT
  }
}
