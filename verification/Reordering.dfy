/** What holds in every run over the channel that loses, duplicates and reorders. */
module Reordering {
  import opened Bytes
  import opened NbMessage
  import opened Target
  import opened Host
  import opened Network

  predicate HostOk(file: seq<byte>, h: HostState) {
    && h.cookie >= 1
    && HostValid(file, h)
    && match h.phase
       case Idle => true
       case Ready(pos) => pos <= KBUFSIZE
       case Busy(io, pos) =>
         && pos <= KBUFSIZE
         && io.msg.cookie == h.cookie - 1 && io.msg.cookie >= 1
         && Legit(file, io.msg)
         && (io.msg.cmd == NB_DATA ==> io.msg.arg == pos)
         && (io.msg.cmd == NB_BOOT ==> pos == |file|)
  }

  /** Every datagram sent belongs to one call of io, and the last cookie to the call in progress. */
  predicate SentOk(file: seq<byte>, s: System) {
    && (forall m :: m in s.up ==> 1 <= m.cookie < s.h.cookie && Legit(file, m))
    && (forall m, n :: m in s.up && n in s.up && m.cookie == n.cookie ==> m == n)
    && (s.h.phase.Busy? ==>
          forall m :: m in s.up && m.cookie == s.h.phase.io.msg.cookie ==> m == s.h.phase.io.msg)
  }

  /** The call with this cookie reached the target, and its block, if it carries one, was stored. */
  predicate Confirmed(s: System, cookie: uint32) {
    exists m :: m in s.up && m.cookie == cookie && (m.cmd == NB_DATA ==> m in s.stored)
  }

  predicate AcksOk(s: System) {
    && (forall a :: a in s.down && a.cmd == NB_ACK ==> Confirmed(s, a.cookie))
    && (s.t.lastCookie != 0 && s.t.lastAckCmd == NB_ACK ==> Confirmed(s, s.t.lastCookie))
    && (forall m :: m in s.stored ==> m in s.up && m.cmd == NB_DATA && m.arg + |m.data| <= KBUFSIZE)
  }

  predicate Inv(file: seq<byte>, s: System) {
    HostOk(file, s.h) && SentOk(file, s) && AcksOk(s) && TargetOk(file, s.t)
  }

  lemma InitInv(file: seq<byte>, s: System)
    requires Init(s)
    ensures Inv(file, s)
  {
    assert s.t.files[Kernel].data[..0] == file[..0];
  }

  // --- host steps ---

  lemma BeginOk(file: seq<byte>, s: System, m: Msg, pos: nat)
    requires Inv(file, s) && s.h.cookie + 1 < TWO32
    requires Legit(file, m) && pos <= KBUFSIZE && pos <= |file|
    requires m.cmd == NB_DATA ==> m.arg == pos && pos + |m.data| <= |file|
    requires m.cmd == NB_BOOT ==> pos == |file|
    ensures Inv(file, s.(h := Begin(s.h, m, pos)))
  {
    var r := s.(h := Begin(s.h, m, pos));
    forall c | Confirmed(s, c) ensures Confirmed(r, c) {
    }
  }

  lemma ReadFileOk(file: seq<byte>, s: System, f: Fread)
    requires Inv(file, s) && Enabled(s, HostAct(Read(f)))
    ensures Inv(file, Apply(file, s, HostAct(Read(f))))
  {
    var pos := s.h.phase.pos;
    var r := FreadLen(file, pos, f);
    if r > 0 {
      assert pos % TWO32 == pos;
      BeginOk(file, s, DataMsg(file, pos, r), pos);
    } else if f.FreadError? {
      SamePhaseOk(file, s, Idle);
    } else {
      BeginOk(file, s, BootMsg(), pos);
    }
  }

  /** Moving to a phase without a pending call keeps the invariant. */
  lemma SamePhaseOk(file: seq<byte>, s: System, p: Phase)
    requires Inv(file, s)
    requires p.Idle? || (p.Ready? && p.pos <= KBUFSIZE && p.pos <= |file|)
    ensures Inv(file, s.(h := s.h.(phase := p)))
  {
    var r := s.(h := s.h.(phase := p));
    forall c | Confirmed(s, c) ensures Confirmed(r, c) {
    }
  }

  lemma PendingOk(file: seq<byte>, s: System, io: Io, sent: bool)
    requires Inv(file, s) && s.h.phase.Busy?
    requires io.msg == s.h.phase.io.msg && io.retries >= 1
    ensures Inv(file, s.(h := s.h.(phase := Busy(io, s.h.phase.pos)),
                         up := Add(s.up, if sent then Some(io.msg) else None)))
  {
    var r := s.(h := s.h.(phase := Busy(io, s.h.phase.pos)), up := Add(s.up, if sent then Some(io.msg) else None));
    forall c | Confirmed(s, c) ensures Confirmed(r, c) {
      var m :| m in s.up && m.cookie == c && (m.cmd == NB_DATA ==> m in s.stored);
      assert m in r.up;
    }
  }

  /** When io returns 0 the block it sent has been stored. */
  lemma AckMeansStored(file: seq<byte>, s: System, d: Datagram)
    requires Inv(file, s) && s.h.phase.Busy?
    requires Matches(s.h.phase.io.msg, d) && d.msg in s.down
    ensures s.h.phase.io.msg in s.up
    ensures s.h.phase.io.msg.cmd == NB_DATA ==> s.h.phase.io.msg in s.stored
  {
    assert Confirmed(s, d.msg.cookie);
  }

  lemma SocketOk(file: seq<byte>, s: System, e: IoEvent)
    requires Inv(file, s) && Enabled(s, HostAct(Socket(e)))
    ensures Inv(file, Apply(file, s, HostAct(Socket(e))))
  {
    var io := s.h.phase.io;
    match IoStep(io, e)
    case Pending(n) => PendingOk(file, s, n, e.WriteOk?);
    case Failure => SamePhaseOk(file, s, Idle);
    case Success =>
      AckMeansStored(file, s, e.d);
      SamePhaseOk(file, s, Acked(io.msg, s.h.phase.pos));
  }

  // --- target steps ---

  lemma DeliverTargetOk(file: seq<byte>, t: TargetState, m: Msg)
    requires TargetOk(file, t) && Legit(file, m)
    ensures TargetOk(file, Poll(t, m))
    ensures Boots(t, m) ==> m.cmd == NB_BOOT
    ensures Accepts(t, m) ==> m.arg == t.files[Kernel].offset && m.arg + |m.data| <= KBUFSIZE
    ensures var r := Handle(t, m).1; r.Some? ==> r.value.cookie == m.cookie
    ensures var r := Handle(t, m).1; r.Some? && r.value.cmd == NB_ACK ==>
              m.cmd != NB_DATA || Accepts(t, m) || (t.lastCookie == m.cookie && t.lastAckCmd == NB_ACK)
    ensures var u := Poll(t, m); u.lastAckCmd == NB_ACK ==>
              || (u.lastCookie == m.cookie && (m.cmd != NB_DATA || Accepts(t, m)))
              || (u.lastCookie == t.lastCookie && t.lastAckCmd == NB_ACK)
  {
    if m.cmd == NB_SEND_FILE {
      HandleSendFile(file, t, m);
    } else if m.cmd == NB_BOOT {
      HandleBoot(file, t, m);
    } else if Accepts(t, m) {
      HandleDataStored(file, t, m);
    } else {
      HandleDataRefused(file, t, m);
    }
  }

  lemma DeliverOk(file: seq<byte>, s: System, m: Msg)
    requires Inv(file, s) && m in s.up
    ensures Inv(file, Apply(file, s, Deliver(m)))
  {
    DeliverTargetOk(file, s.t, m);
    DeliverAcksOk(file, s, m);
  }

  lemma DeliverAcksOk(file: seq<byte>, s: System, m: Msg)
    requires Inv(file, s) && m in s.up
    ensures AcksOk(Apply(file, s, Deliver(m)))
  {
    DeliverTargetOk(file, s.t, m);
    var r := Apply(file, s, Deliver(m));
    forall c | Confirmed(s, c) ensures Confirmed(r, c) {
      var n :| n in s.up && n.cookie == c && (n.cmd == NB_DATA ==> n in s.stored);
      assert n in r.up;
    }
    assert m.cmd != NB_DATA || Accepts(s.t, m) ==> Confirmed(r, m.cookie);
  }

  lemma StepInv(file: seq<byte>, s: System, step: Step)
    requires Inv(file, s) && Enabled(s, step)
    ensures Inv(file, Apply(file, s, step))
  {
    match step
    case Deliver(m) => DeliverOk(file, s, m);
    case HostAct(ev) =>
      match ev
      case Start => BeginOk(file, s, SendFileMsg(), 0);
      case Read(f) => ReadFileOk(file, s, f);
      case Socket(e) => SocketOk(file, s, e);
  }

  // --- every run ---

  lemma {:induction false} RunInv(file: seq<byte>, s: System, steps: seq<Step>)
    requires Inv(file, s) && Run(file, s, steps)
    ensures Inv(file, Exec(file, s, steps))
    decreases |steps|
  {
    if steps != [] {
      StepInv(file, s, steps[0]);
      RunInv(file, Apply(file, s, steps[0]), steps[1..]);
    }
  }

  lemma OtherFiles(file: seq<byte>, s: System, step: Step, id: FileId)
    requires Inv(file, s) && Enabled(s, step) && id != Kernel
    ensures Apply(file, s, step).t.files[id] == s.t.files[id]
  {
    if step.Deliver? {
      HandleFrame(s.t, step.m, id);
      DeliverTargetOk(file, s.t, step.m);
    }
  }

  lemma {:induction false} OtherFilesInRun(file: seq<byte>, s: System, steps: seq<Step>, id: FileId)
    requires Inv(file, s) && Run(file, s, steps) && id != Kernel
    ensures Exec(file, s, steps).t.files[id] == s.t.files[id]
    decreases |steps|
  {
    if steps != [] {
      StepInv(file, s, steps[0]);
      OtherFiles(file, s, steps[0], id);
      OtherFilesInRun(file, Apply(file, s, steps[0]), steps[1..], id);
    }
  }

  /**
   * Prefix invariant: whatever the channel loses, repeats or reorders, the kernel buffer
   * holds the first `offset` bytes of the file, and the other two buffers stay as they were.
   */
  lemma PrefixInEveryRun(file: seq<byte>, s: System, steps: seq<Step>)
    requires Init(s) && Run(file, s, steps)
    ensures Prefix(file, Exec(file, s, steps).t)
    ensures forall id: FileId :: id != Kernel ==> Exec(file, s, steps).t.files[id] == s.t.files[id]
  {
    InitInv(file, s);
    RunInv(file, s, steps);
    forall id: FileId | id != Kernel ensures Exec(file, s, steps).t.files[id] == s.t.files[id] {
      OtherFilesInRun(file, s, steps, id);
    }
  }

  /** Step j of the run stores m: the write pointer moves from its start to its end. */
  predicate StoredAt(file: seq<byte>, s: System, steps: seq<Step>, j: nat, m: Msg)
    requires HostValid(file, s.h)
  {
    && j < |steps| && steps[j] == Deliver(m)
    && Run(file, s, steps[..j])
    && var t := Exec(file, s, steps[..j]).t;
       var k := Poll(t, m).files[Kernel];
       && t.item == Some(Kernel) && t.files[Kernel].offset == m.arg
       && k.offset == m.arg + |m.data| <= |k.data|
       && k.data[m.arg..k.offset] == m.data
  }

  lemma StoredFirst(file: seq<byte>, s: System, steps: seq<Step>, m: Msg)
    requires Inv(file, s) && Run(file, s, steps) && steps != []
    requires m !in s.stored && m in Apply(file, s, steps[0]).stored
    ensures StoredAt(file, s, steps, 0, m)
  {
    HandleDataStored(file, s.t, m);
    assert steps[..0] == [];
  }

  lemma StoredLater(file: seq<byte>, s: System, steps: seq<Step>, j: nat, m: Msg)
    requires HostValid(file, s.h) && Run(file, s, steps) && steps != []
    requires StoredAt(file, Apply(file, s, steps[0]), steps[1..], j, m)
    ensures StoredAt(file, s, steps, j + 1, m)
  {
    assert steps[..j + 1][0] == steps[0] && steps[..j + 1][1..] == steps[1..][..j];
  }

  lemma {:induction false} StoredHistory(file: seq<byte>, s: System, steps: seq<Step>, m: Msg) returns (j: nat)
    requires Inv(file, s) && Run(file, s, steps)
    requires m !in s.stored && m in Exec(file, s, steps).stored
    ensures StoredAt(file, s, steps, j, m)
    decreases |steps|
  {
    if m in Apply(file, s, steps[0]).stored {
      j := 0;
      StoredFirst(file, s, steps, m);
    } else {
      StepInv(file, s, steps[0]);
      j := StoredHistory(file, Apply(file, s, steps[0]), steps[1..], m);
      StoredLater(file, s, steps, j, m);
      j := j + 1;
    }
  }

  /**
   * Ack means stored, in every run: when io is about to return 0 for a block, the target
   * stored that very block at that very offset in some earlier step of the run.
   */
  lemma AckedBlockWasStored(file: seq<byte>, s: System, steps: seq<Step>, d: Datagram)
    requires Init(s) && Run(file, s, steps)
    requires var r := Exec(file, s, steps);
             r.h.phase.Busy? && r.h.phase.io.msg.cmd == NB_DATA
             && Matches(r.h.phase.io.msg, d) && d.msg in r.down
    ensures exists j: nat :: StoredAt(file, s, steps, j, Exec(file, s, steps).h.phase.io.msg)
  {
    InitInv(file, s);
    RunInv(file, s, steps);
    var r := Exec(file, s, steps);
    AckMeansStored(file, r, d);
    var j := StoredHistory(file, s, steps, r.h.phase.io.msg);
  }

  /**
   * No call of io accepts an ack of an earlier call: whatever the target has sent before the call
   * began, and however often the channel repeats it, does not match the new message.
   */
  lemma OldAcksIgnored(file: seq<byte>, s: System, steps: seq<Step>, ev: HostEvent, a: Msg)
    requires Init(s) && Run(file, s, steps)
    requires var r := Exec(file, s, steps);
             Enabled(r, HostAct(ev)) && !r.h.phase.Busy? && a in r.down
             && HostStep(file, r.h, ev).0.phase.Busy?
    ensures !Matches(HostStep(file, Exec(file, s, steps).h, ev).0.phase.io.msg, Full(a))
  {
    InitInv(file, s);
    RunInv(file, s, steps);
    var r := Exec(file, s, steps);
    if a.cmd == NB_ACK {
      assert Confirmed(r, a.cookie);
    }
  }
}
