/** Whole transfers: what the order-preserving channel can do, and what reordering breaks. */
module Transfers {
  import opened Bytes
  import opened NbMessage
  import opened Target
  import opened Host
  import opened Network
  import opened Fifo
  import Reordering

  // --- the order-preserving channel refines the reordering one ---

  /** The same run as the reordering channel sees it: losses are not steps. */
  function Project(file: seq<byte>, f: FifoSystem, steps: seq<FifoStep>): seq<Step>
    requires WellFormed(file, f) && FifoRun(file, f, steps)
    decreases |steps|
  {
    if steps == [] then []
    else
      (match steps[0]
       case HostMove(ev) => [HostAct(ev)]
       case Receive => [Deliver(f.upq[0])]
       case _ => [])
      + Project(file, FifoApply(file, f, steps[0]), steps[1..])
  }

  lemma {:induction false} FifoRefinesReordering(file: seq<byte>, f: FifoSystem, steps: seq<FifoStep>)
    requires WellFormed(file, f) && FifoRun(file, f, steps)
    ensures Run(file, f.sys, Project(file, f, steps))
    ensures Exec(file, f.sys, Project(file, f, steps)) == FifoExec(file, f, steps).sys
    decreases |steps|
  {
    if steps != [] {
      var g := FifoApply(file, f, steps[0]);
      var rest := Project(file, g, steps[1..]);
      FifoRefinesReordering(file, g, steps[1..]);
      match steps[0] {
        case HostMove(ev) =>
          assert ([HostAct(ev)] + rest)[1..] == rest;
        case Receive =>
          assert ([Deliver(f.upq[0])] + rest)[1..] == rest;
        case _ =>
          assert [] + rest == rest;
      }
    }
  }

  // --- the lost ack of the first block ---

  /** The first block is stored, its call is still waiting, and no ack of it is in flight. */
  predicate Stuck(f: FifoSystem) {
    && f.sys.h.phase.Busy?
    && var io := f.sys.h.phase.io;
       && io.msg.cmd == NB_DATA && io.msg.arg == 0
       && Done(f.sys.t, io, f.sys.h.phase.pos)
       && forall i :: 0 <= i < |f.downq| ==> f.downq[i].cookie != io.msg.cookie
  }

  lemma StuckReceive(file: seq<byte>, f: FifoSystem)
    requires FifoInv(file, f) && Stuck(f) && f.upq != []
    ensures Stuck(FifoApply(file, f, Receive))
  {
    assert f.upq[0] in f.sys.up;
    HandleDataRefused(file, f.sys.t, f.sys.h.phase.io.msg);
  }

  lemma StuckStep(file: seq<byte>, f: FifoSystem, step: FifoStep)
    requires FifoInv(file, f) && Stuck(f) && FifoEnabled(f, step)
    ensures var g := FifoApply(file, f, step); Stuck(g) || g.sys.h.phase.Idle?
  {
    if step.Receive? {
      StuckReceive(file, f);
    }
  }

  predicate StuckUntilAbort(file: seq<byte>, f: FifoSystem, steps: seq<FifoStep>)
    requires WellFormed(file, f) && FifoRun(file, f, steps)
    decreases |steps|
  {
    f.sys.h.phase.Idle?
    || (Stuck(f) && (steps == [] || StuckUntilAbort(file, FifoApply(file, f, steps[0]), steps[1..])))
  }

  lemma {:induction false} StuckRun(file: seq<byte>, f: FifoSystem, steps: seq<FifoStep>)
    requires FifoInv(file, f) && Stuck(f) && FifoRun(file, f, steps)
    ensures StuckUntilAbort(file, f, steps)
    decreases |steps|
  {
    if steps != [] {
      FifoStepInv(file, f, steps[0]);
      StuckStep(file, f, steps[0]);
      if !FifoApply(file, f, steps[0]).sys.h.phase.Idle? {
        StuckRun(file, FifoApply(file, f, steps[0]), steps[1..]);
      }
    }
  }

  /** In the reached state the first block is stored and answer i is its only ack in flight. */
  predicate OnlyAckAt(f: FifoSystem, i: nat) {
    && i < |f.downq|
    && f.sys.h.phase.Busy?
    && var m := f.sys.h.phase.io.msg;
       && m.cmd == NB_DATA && m.arg == 0 && f.downq[i] == AckOf(m, NB_ACK).value
       && forall j :: 0 <= j < |f.downq| && j != i ==> f.downq[j].cookie != m.cookie
  }

  /**
   * The ack of the first block is sent once and never again: in every run, if it is lost,
   * xfer stays in that call until it gives up, so the transfer never reaches its boot request.
   */
  lemma LostFirstAckAborts(file: seq<byte>, f: FifoSystem, before: seq<FifoStep>, i: nat, after: seq<FifoStep>)
    requires FifoInit(f) && FifoRun(file, f, before)
    requires var g := FifoExec(file, f, before);
             OnlyAckAt(g, i) && FifoRun(file, FifoApply(file, g, LoseDown(i)), after)
    ensures var g := FifoExec(file, f, before);
            StuckUntilAbort(file, FifoApply(file, g, LoseDown(i)), after)
  {
    FifoInitInv(file, f);
    FifoRunInv(file, f, before);
    var g := FifoExec(file, f, before);
    FifoStepInv(file, g, LoseDown(i));
    StuckRun(file, FifoApply(file, g, LoseDown(i)), after);
  }

  /**
   * Ack means stored, in every run over the order-preserving channel: when io is about to
   * return 0, the target's write pointer is exactly behind the acknowledged block and every
   * datagram still on its way to the target is a copy of that request.
   */
  lemma AckedOffsetInEveryRun(file: seq<byte>, f: FifoSystem, steps: seq<FifoStep>)
    requires FifoInit(f) && FifoRun(file, f, steps)
    requires var g := FifoExec(file, f, steps);
             g.sys.h.phase.Busy? && g.downq != [] && Matches(g.sys.h.phase.io.msg, Full(g.downq[0]))
    ensures var g := FifoExec(file, f, steps);
            var m := g.sys.h.phase.io.msg;
            var k := g.sys.t.files[Kernel];
            && g.sys.t.item == Some(Kernel)
            && (m.cmd == NB_SEND_FILE ==> k.offset == 0)
            && (m.cmd == NB_DATA ==>
                  k.offset == m.arg + |m.data| <= |k.data| && k.data[m.arg..k.offset] == m.data)
            && (m.cmd == NB_BOOT ==> k.offset == |file|)
            && forall i :: 0 <= i < |g.upq| ==> g.upq[i] == m
  {
    FifoInitInv(file, f);
    FifoRunInv(file, f, steps);
    var g := FifoExec(file, f, steps);
    var m := g.sys.h.phase.io.msg;
    AckMeansOffset(file, g, Full(g.downq[0]));
    var k := g.sys.t.files[Kernel];
    if m.cmd == NB_DATA {
      assert k.data[m.arg..k.offset] == k.data[..k.offset][m.arg..];
      assert file[m.arg..k.offset] == file[..k.offset][m.arg..];
    }
  }

  // --- a transfer without loss ---

  lemma {:induction false} FifoRunJoin(file: seq<byte>, f: FifoSystem, a: seq<FifoStep>, b: seq<FifoStep>)
    requires WellFormed(file, f) && FifoRun(file, f, a) && FifoRun(file, FifoExec(file, f, a), b)
    ensures FifoRun(file, f, a + b)
    ensures FifoExec(file, f, a + b) == FifoExec(file, FifoExec(file, f, a), b)
    decreases |a|
  {
    if a == [] {
      assert a + b == b;
    } else {
      assert (a + b)[0] == a[0] && (a + b)[1..] == a[1..] + b;
      FifoRunJoin(file, FifoApply(file, f, a[0]), a[1..], b);
    }
  }

  /** P holds at the start and is kept by every step. */
  ghost predicate Inductive(file: seq<byte>, P: FifoSystem -> bool) {
    && (forall f :: FifoInit(f) ==> P(f))
    && (forall f, step :: P(f) && WellFormed(file, f) && FifoEnabled(f, step) ==> P(FifoApply(file, f, step)))
  }

  /** f lies within every inductive property, as the states that some run leads to do. */
  ghost predicate Reachable(file: seq<byte>, f: FifoSystem) {
    WellFormed(file, f) && forall P: FifoSystem -> bool :: Inductive(file, P) ==> P(f)
  }

  lemma ReachableInv(file: seq<byte>, f: FifoSystem)
    requires Reachable(file, f)
    ensures FifoInv(file, f)
  {
    var P := x => FifoInv(file, x);
    forall x | FifoInit(x) ensures P(x) {
      FifoInitInv(file, x);
    }
    forall x, step | P(x) && WellFormed(file, x) && FifoEnabled(x, step) ensures P(FifoApply(file, x, step)) {
      FifoStepInv(file, x, step);
    }
    assert Inductive(file, P);
  }

  lemma InitReachable(file: seq<byte>, f: FifoSystem)
    requires FifoInit(f)
    ensures Reachable(file, f)
  {
    FifoInitInv(file, f);
  }

  /** Nothing in flight. */
  ghost predicate Clean(file: seq<byte>, f: FifoSystem) {
    Reachable(file, f) && f.upq == [] && f.downq == []
  }

  lemma OneStep(file: seq<byte>, f: FifoSystem, step: FifoStep)
    requires Reachable(file, f) && FifoEnabled(f, step)
    ensures FifoRun(file, f, [step]) && FifoExec(file, f, [step]) == FifoApply(file, f, step)
    ensures Reachable(file, FifoApply(file, f, step))
  {
    var g := FifoApply(file, f, step);
    assert [step][1..] == [];
    assert FifoRun(file, g, []) && FifoExec(file, g, []) == g;
    forall P: FifoSystem -> bool | Inductive(file, P) ensures P(g) {
      assert P(f);
    }
  }

  /** How many requests a run loses. */
  function Lost(steps: seq<FifoStep>): nat {
    if steps == [] then 0 else (if steps[0].LoseUp? then 1 else 0) + Lost(steps[1..])
  }

  /** How many answers a run loses. */
  function LostDown(steps: seq<FifoStep>): nat {
    if steps == [] then 0 else (if steps[0].LoseDown? then 1 else 0) + LostDown(steps[1..])
  }

  lemma {:induction false} LostJoin(a: seq<FifoStep>, b: seq<FifoStep>)
    ensures Lost(a + b) == Lost(a) + Lost(b) && LostDown(a + b) == LostDown(a) + LostDown(b)
  {
    if a == [] {
      assert a + b == b;
    } else {
      assert (a + b)[0] == a[0] && (a + b)[1..] == a[1..] + b;
      LostJoin(a[1..], b);
    }
  }

  lemma LostOne(step: FifoStep)
    ensures Lost([step]) == (if step.LoseUp? then 1 else 0) && LostDown([step]) == if step.LoseDown? then 1 else 0
  {
    assert [step][1..] == [] && Lost([]) == LostDown([]) == 0;
  }

  /** Two runs, one after the other. */
  lemma Glue(file: seq<byte>, f: FifoSystem, a: seq<FifoStep>, m: FifoSystem, b: seq<FifoStep>)
    returns (steps: seq<FifoStep>)
    requires WellFormed(file, f) && FifoRun(file, f, a) && FifoExec(file, f, a) == m && FifoRun(file, m, b)
    ensures FifoRun(file, f, steps) && FifoExec(file, f, steps) == FifoExec(file, m, b)
    ensures Lost(steps) == Lost(a) + Lost(b) && LostDown(steps) == LostDown(a) + LostDown(b)
  {
    FifoRunJoin(file, f, a, b);
    LostJoin(a, b);
    steps := a + b;
  }

  /** A request that the target acknowledges, sent over an empty channel without loss. */
  lemma CallSucceeds(file: seq<byte>, f: FifoSystem) returns (steps: seq<FifoStep>, g: FifoSystem)
    requires Clean(file, f) && f.sys.h.phase.Busy? && f.sys.h.phase.io.pc == Writing
    requires Handle(f.sys.t, f.sys.h.phase.io.msg).1 == AckOf(f.sys.h.phase.io.msg, NB_ACK)
    ensures FifoRun(file, f, steps) && g == FifoExec(file, f, steps) && Lost(steps) == 0
    ensures Clean(file, g)
    ensures g.sys.h == f.sys.h.(phase := Acked(f.sys.h.phase.io.msg, f.sys.h.phase.pos))
    ensures g.sys.up == f.sys.up + {f.sys.h.phase.io.msg}
  {
    var m := f.sys.h.phase.io.msg;
    var a := AckOf(m, NB_ACK).value;
    var f1 := SendStep(file, f);
    var f2 := ReceiveStep(file, f1);
    g := AckStep(file, f2, a);
    steps := ThreeSteps(file, f, f1, f2, HostMove(Socket(WriteOk)), Receive, HostMove(Socket(ReadOk(Full(a)))));
  }

  lemma ThreeSteps(file: seq<byte>, f: FifoSystem, f1: FifoSystem, f2: FifoSystem,
                   a: FifoStep, b: FifoStep, c: FifoStep)
    returns (steps: seq<FifoStep>)
    requires WellFormed(file, f) && FifoRun(file, f, [a]) && FifoExec(file, f, [a]) == f1
    requires FifoRun(file, f1, [b]) && FifoExec(file, f1, [b]) == f2 && FifoRun(file, f2, [c])
    ensures FifoRun(file, f, steps) && FifoExec(file, f, steps) == FifoExec(file, f2, [c])
    ensures Lost(steps) == (if a.LoseUp? then 1 else 0) + (if b.LoseUp? then 1 else 0) + (if c.LoseUp? then 1 else 0)
  {
    var s := Glue(file, f, [a], f1, [b]);
    steps := Glue(file, f, s, f2, [c]);
    LostOne(a);
    LostOne(b);
    LostOne(c);
  }

  lemma SendStep(file: seq<byte>, f: FifoSystem) returns (g: FifoSystem)
    requires Clean(file, f) && f.sys.h.phase.Busy? && f.sys.h.phase.io.pc == Writing
    ensures FifoRun(file, f, [HostMove(Socket(WriteOk))]) && g == FifoExec(file, f, [HostMove(Socket(WriteOk))])
    ensures Reachable(file, g) && g.upq == [f.sys.h.phase.io.msg] && g.downq == []
    ensures g.sys.h == f.sys.h.(phase := Busy(f.sys.h.phase.io.(pc := Reading), f.sys.h.phase.pos))
    ensures g.sys.t == f.sys.t && g.sys.up == f.sys.up + {f.sys.h.phase.io.msg}
  {
    OneStep(file, f, HostMove(Socket(WriteOk)));
    g := FifoApply(file, f, HostMove(Socket(WriteOk)));
  }

  lemma ReceiveStep(file: seq<byte>, f: FifoSystem) returns (g: FifoSystem)
    requires Reachable(file, f) && |f.upq| == 1 && f.downq == []
    ensures FifoRun(file, f, [Receive]) && g == FifoExec(file, f, [Receive])
    ensures Reachable(file, g) && g.upq == [] && g.downq == Enqueue([], Handle(f.sys.t, f.upq[0]).1)
    ensures g.sys.h == f.sys.h && g.sys.up == f.sys.up && g.sys.t == Poll(f.sys.t, f.upq[0])
  {
    OneStep(file, f, Receive);
    g := FifoApply(file, f, Receive);
  }

  lemma AckStep(file: seq<byte>, f: FifoSystem, a: Msg) returns (g: FifoSystem)
    requires Reachable(file, f) && f.upq == [] && f.downq == [a]
    requires f.sys.h.phase.Busy? && f.sys.h.phase.io.pc == Reading && Matches(f.sys.h.phase.io.msg, Full(a))
    ensures var step := HostMove(Socket(ReadOk(Full(a))));
            FifoRun(file, f, [step]) && g == FifoExec(file, f, [step])
    ensures Clean(file, g)
    ensures g.sys.h == f.sys.h.(phase := Acked(f.sys.h.phase.io.msg, f.sys.h.phase.pos))
    ensures g.sys.up == f.sys.up
  {
    OneStep(file, f, HostMove(Socket(ReadOk(Full(a)))));
    ReachableInv(file, f);
    SuccessShape(file, f, Full(a));
    g := FifoApply(file, f, HostMove(Socket(ReadOk(Full(a)))));
  }

  // --- losses that are made up for ---

  lemma TimeoutStep(file: seq<byte>, f: FifoSystem) returns (g: FifoSystem)
    requires Clean(file, f) && f.sys.h.phase.Busy?
    requires f.sys.h.phase.io.pc == Reading && f.sys.h.phase.io.retries >= 2
    ensures var step := HostMove(Socket(ReadTimeout));
            FifoRun(file, f, [step]) && g == FifoExec(file, f, [step])
    ensures Clean(file, g) && g.sys.t == f.sys.t && g.sys.up == f.sys.up
    ensures var io := f.sys.h.phase.io;
            g.sys.h == f.sys.h.(phase := Busy(Io(io.msg, io.retries - 1, Writing), f.sys.h.phase.pos))
  {
    TimeoutHost(file, f.sys.h);
    OneStep(file, f, HostMove(Socket(ReadTimeout)));
    g := FifoApply(file, f, HostMove(Socket(ReadTimeout)));
  }

  lemma TimeoutHost(file: seq<byte>, h: HostState)
    requires HostValid(file, h) && h.phase.Busy? && h.phase.io.pc == Reading && h.phase.io.retries >= 2
    ensures HostEnabled(h, Socket(ReadTimeout))
    ensures HostStep(file, h, Socket(ReadTimeout))
            == (h.(phase := Busy(Io(h.phase.io.msg, h.phase.io.retries - 1, Writing), h.phase.pos)), None)
  {
  }

  lemma LoseUpStep(file: seq<byte>, f: FifoSystem) returns (g: FifoSystem)
    requires Reachable(file, f) && |f.upq| == 1 && f.downq == []
    ensures FifoRun(file, f, [LoseUp(0)]) && g == FifoExec(file, f, [LoseUp(0)])
    ensures Clean(file, g) && g.sys == f.sys
  {
    OneStep(file, f, LoseUp(0));
    g := FifoApply(file, f, LoseUp(0));
  }

  lemma LoseDownStep(file: seq<byte>, f: FifoSystem) returns (g: FifoSystem)
    requires Reachable(file, f) && f.upq == [] && |f.downq| == 1
    ensures FifoRun(file, f, [LoseDown(0)]) && g == FifoExec(file, f, [LoseDown(0)])
    ensures Clean(file, g) && g.sys == f.sys
  {
    OneStep(file, f, LoseDown(0));
    g := FifoApply(file, f, LoseDown(0));
  }

  /** The state after a lost request: the same call, with one retry less. */
  predicate OneRetryLess(f: FifoSystem, g: FifoSystem)
    requires f.sys.h.phase.Busy?
  {
    var io := f.sys.h.phase.io;
    && io.retries >= 2 && g.sys.up == f.sys.up + {io.msg}
    && g.sys.h == f.sys.h.(phase := Busy(Io(io.msg, io.retries - 1, Writing), f.sys.h.phase.pos))
  }

  /** The request is written and lost, and the read times out. */
  lemma RequestLost(file: seq<byte>, f: FifoSystem) returns (steps: seq<FifoStep>, g: FifoSystem)
    requires Clean(file, f) && f.sys.h.phase.Busy?
    requires f.sys.h.phase.io.pc == Writing && f.sys.h.phase.io.retries >= 2
    ensures FifoRun(file, f, steps) && g == FifoExec(file, f, steps) && Lost(steps) == 1
    ensures Clean(file, g) && g.sys.t == f.sys.t && OneRetryLess(f, g)
  {
    var write, timeout := HostMove(Socket(WriteOk)), HostMove(Socket(ReadTimeout));
    var f1 := SendStep(file, f);
    var f2 := LoseUpStep(file, f1);
    g := TimeoutStep(file, f2);
    steps := ThreeSteps(file, f, f1, f2, write, LoseUp(0), timeout);
  }

  /** The request is handled, but its answer is lost, and the read times out. */
  lemma AnswerLost(file: seq<byte>, f: FifoSystem) returns (steps: seq<FifoStep>, g: FifoSystem)
    requires Clean(file, f) && f.sys.h.phase.Busy?
    requires f.sys.h.phase.io.pc == Writing && f.sys.h.phase.io.retries >= 2
    requires Handle(f.sys.t, f.sys.h.phase.io.msg).1.Some?
    ensures FifoRun(file, f, steps) && g == FifoExec(file, f, steps) && LostDown(steps) >= 1
    ensures Clean(file, g) && g.sys.t == Poll(f.sys.t, f.sys.h.phase.io.msg) && OneRetryLess(f, g)
  {
    var timeout := HostMove(Socket(ReadTimeout));
    var s1, f1 := AnswerSent(file, f);
    var f2 := LoseDownStep(file, f1);
    var s2 := Glue(file, f, s1, f1, [LoseDown(0)]);
    LostOne(LoseDown(0));
    g := TimeoutStep(file, f2);
    steps := Glue(file, f, s2, f2, [timeout]);
  }

  lemma AnswerSent(file: seq<byte>, f: FifoSystem) returns (steps: seq<FifoStep>, g: FifoSystem)
    requires Clean(file, f) && f.sys.h.phase.Busy? && f.sys.h.phase.io.pc == Writing
    requires Handle(f.sys.t, f.sys.h.phase.io.msg).1.Some?
    ensures FifoRun(file, f, steps) && g == FifoExec(file, f, steps)
    ensures Reachable(file, g) && g.upq == [] && |g.downq| == 1 && g.sys.up == f.sys.up + {f.sys.h.phase.io.msg}
    ensures g.sys.h == f.sys.h.(phase := Busy(f.sys.h.phase.io.(pc := Reading), f.sys.h.phase.pos))
    ensures g.sys.t == Poll(f.sys.t, f.sys.h.phase.io.msg)
  {
    var f1 := SendStep(file, f);
    g := ReceiveStep(file, f1);
    steps := Glue(file, f, [HostMove(Socket(WriteOk))], f1, [Receive]);
  }

  /** A call survives the loss of as many copies of its request as it has retries, less one. */
  lemma {:induction false} CallSurvives(file: seq<byte>, f: FifoSystem, k: nat)
    returns (steps: seq<FifoStep>, g: FifoSystem)
    requires Clean(file, f) && f.sys.h.phase.Busy? && f.sys.h.phase.io.pc == Writing
    requires k < f.sys.h.phase.io.retries
    requires Handle(f.sys.t, f.sys.h.phase.io.msg).1 == AckOf(f.sys.h.phase.io.msg, NB_ACK)
    ensures FifoRun(file, f, steps) && g == FifoExec(file, f, steps) && Lost(steps) == k
    ensures Clean(file, g)
    ensures g.sys.h == f.sys.h.(phase := Acked(f.sys.h.phase.io.msg, f.sys.h.phase.pos))
    ensures g.sys.up == f.sys.up + {f.sys.h.phase.io.msg}
    decreases k
  {
    if k == 0 {
      steps, g := CallSucceeds(file, f);
    } else {
      var s1, f1 := RequestLost(file, f);
      var s2;
      s2, g := CallSurvives(file, f1, k - 1);
      steps := Glue(file, f, s1, f1, s2);
    }
  }

  lemma AnswerIgnoresBoot(t: TargetState, m: Msg, b: bool)
    ensures Handle(t.(bootNow := b), m).1 == Handle(t, m).1
  {
  }

  /**
   * A lost ack is made up for, unless it is that of the first block: the target answers the
   * resent request again, and the call succeeds.
   */
  lemma LostAckRecovered(file: seq<byte>, f: FifoSystem) returns (steps: seq<FifoStep>, g: FifoSystem)
    requires Clean(file, f) && f.sys.h.phase.Busy?
    requires f.sys.h.phase.io.pc == Writing && f.sys.h.phase.io.retries >= 2
    requires var m := f.sys.h.phase.io.msg;
             Handle(f.sys.t, m).1 == AckOf(m, NB_ACK) && !FirstBlockStored(f.sys.t, m)
    ensures FifoRun(file, f, steps) && g == FifoExec(file, f, steps) && LostDown(steps) >= 1
    ensures Clean(file, g)
    ensures g.sys.h == f.sys.h.(phase := Acked(f.sys.h.phase.io.msg, f.sys.h.phase.pos))
  {
    var m := f.sys.h.phase.io.msg;
    var s1, f1 := AnswerLost(file, f);
    ResendIdempotence(f.sys.t, m);
    AnswerIgnoresBoot(Handle(f.sys.t, m).0, m, false);
    var s2;
    s2, g := CallSucceeds(file, f1);
    steps := Glue(file, f, s1, f1, s2);
  }

  // --- a whole transfer, with up to four requests lost in every call ---

  /** The first request was sent at least once. */
  predicate OpenSent(f: FifoSystem) {
    IoBegin(SendFileMsg(), 1).msg in f.sys.up
  }

  /** The next block of a file that fits is stored. */
  lemma BlockSucceeds(file: seq<byte>, f: FifoSystem, k: nat) returns (steps: seq<FifoStep>, g: FifoSystem)
    requires Clean(file, f) && f.sys.h.phase.Ready? && |file| <= KBUFSIZE && k < 5
    requires f.sys.h.phase.pos < |file| && f.sys.h.cookie + 1 < TWO32
    ensures FifoRun(file, f, steps) && g == FifoExec(file, f, steps) && Lost(steps) == k
    ensures Clean(file, g) && g.sys.h.phase.Ready? && g.sys.h.cookie == f.sys.h.cookie + 1
    ensures f.sys.h.phase.pos < g.sys.h.phase.pos <= |file|
    ensures OpenSent(f) ==> OpenSent(g)
  {
    var s1, f1 := BlockRead(file, f);
    var s2;
    s2, g := CallSurvives(file, f1, k);
    steps := Glue(file, f, s1, f1, s2);
  }

  lemma BlockRead(file: seq<byte>, f: FifoSystem) returns (steps: seq<FifoStep>, g: FifoSystem)
    requires Clean(file, f) && f.sys.h.phase.Ready? && f.sys.h.phase.pos < |file| <= KBUFSIZE
    requires f.sys.h.cookie + 1 < TWO32
    ensures FifoRun(file, f, steps) && g == FifoExec(file, f, steps) && Lost(steps) == 0
    ensures Clean(file, g) && g.sys.h.cookie == f.sys.h.cookie + 1 && (OpenSent(f) ==> OpenSent(g))
    ensures g.sys.h.phase.Busy? && g.sys.h.phase.io.pc == Writing && g.sys.h.phase.io.retries == 5
    ensures g.sys.h.phase.pos == f.sys.h.phase.pos
    ensures var m := g.sys.h.phase.io.msg;
            && m.cmd == NB_DATA && m.arg == f.sys.h.phase.pos && m.data != [] && m.arg + |m.data| <= |file|
            && Accepts(g.sys.t, m) && Handle(g.sys.t, m).1 == AckOf(m, NB_ACK) && Legit(file, m)
  {
    var read := HostMove(Read(FreadOk));
    OneStep(file, f, read);
    g := FifoApply(file, f, read);
    FirstStored(file, f, g);
    steps := [read];
    LostOne(read);
  }

  /** In step with the host, the target accepts the block that fread has just filled. */
  lemma FirstStored(file: seq<byte>, f: FifoSystem, g: FifoSystem)
    requires Clean(file, f) && f.sys.h.phase.Ready? && f.sys.h.phase.pos < |file| <= KBUFSIZE
    requires f.sys.h.cookie + 1 < TWO32 && g == FifoApply(file, f, HostMove(Read(FreadOk))) && Reachable(file, g)
    ensures g.sys.h.phase.Busy? && Legit(file, g.sys.h.phase.io.msg) && Accepts(g.sys.t, g.sys.h.phase.io.msg)
    ensures Handle(g.sys.t, g.sys.h.phase.io.msg).1 == AckOf(g.sys.h.phase.io.msg, NB_ACK)
  {
    ReachableInv(file, f);
    ReachableInv(file, g);
    HandleDataStored(file, g.sys.t, g.sys.h.phase.io.msg);
  }

  lemma {:induction false} AllBlocksSucceed(file: seq<byte>, f: FifoSystem, k: nat)
    returns (steps: seq<FifoStep>, g: FifoSystem)
    requires Clean(file, f) && f.sys.h.phase.Ready? && |file| <= KBUFSIZE && k < 5
    requires f.sys.h.cookie <= 2 + f.sys.h.phase.pos
    ensures FifoRun(file, f, steps) && g == FifoExec(file, f, steps)
    ensures Clean(file, g) && g.sys.h.phase == Ready(|file|) && f.sys.h.cookie <= g.sys.h.cookie <= 2 + |file|
    ensures (OpenSent(f) ==> OpenSent(g)) && Lost(steps) == Times(k, g.sys.h.cookie - f.sys.h.cookie)
    decreases |file| - f.sys.h.phase.pos
  {
    if f.sys.h.phase.pos == |file| {
      steps, g := [], f;
    } else {
      var s1, f1 := BlockSucceeds(file, f, k);
      var s2;
      s2, g := AllBlocksSucceed(file, f1, k);
      steps := Glue(file, f, s1, f1, s2);
    }
  }

  lemma StartStep(file: seq<byte>, f: FifoSystem) returns (steps: seq<FifoStep>, g: FifoSystem)
    requires FifoInit(f)
    ensures FifoRun(file, f, steps) && g == FifoExec(file, f, steps) && Lost(steps) == 0
    ensures Clean(file, g) && g.sys.h == HostState(2, Busy(IoBegin(SendFileMsg(), 1), 0))
    ensures Handle(g.sys.t, g.sys.h.phase.io.msg).1 == AckOf(g.sys.h.phase.io.msg, NB_ACK)
  {
    InitReachable(file, f);
    OneStep(file, f, HostMove(Start));
    g := FifoApply(file, f, HostMove(Start));
    ReachableInv(file, g);
    HandleSendFile(file, g.sys.t, g.sys.h.phase.io.msg);
    steps := [HostMove(Start)];
    LostOne(HostMove(Start));
  }

  lemma OpenSucceeds(file: seq<byte>, f: FifoSystem, k: nat) returns (steps: seq<FifoStep>, g: FifoSystem)
    requires FifoInit(f) && k < 5
    ensures FifoRun(file, f, steps) && g == FifoExec(file, f, steps) && Lost(steps) == k
    ensures Clean(file, g) && g.sys.h == HostState(2, Ready(0))
    ensures OpenSent(g)
  {
    var s1, f1 := StartStep(file, f);
    var s2;
    s2, g := CallSurvives(file, f1, k);
    steps := Glue(file, f, s1, f1, s2);
  }

  lemma {:induction false} WriteSurvives(file: seq<byte>, f: FifoSystem, k: nat)
    returns (steps: seq<FifoStep>, g: FifoSystem)
    requires Clean(file, f) && f.sys.h.phase.Busy? && f.sys.h.phase.io.pc == Writing
    requires k < f.sys.h.phase.io.retries
    ensures FifoRun(file, f, steps) && g == FifoExec(file, f, steps) && Lost(steps) == k
    ensures Reachable(file, g) && g.upq == [f.sys.h.phase.io.msg] && (OpenSent(f) ==> OpenSent(g))
    ensures g.sys.h.cookie == f.sys.h.cookie
    decreases k
  {
    if k == 0 {
      g := SendStep(file, f);
      steps := [HostMove(Socket(WriteOk))];
      LostOne(HostMove(Socket(WriteOk)));
    } else {
      var s1, f1 := RequestLost(file, f);
      var s2;
      s2, g := WriteSurvives(file, f1, k - 1);
      steps := Glue(file, f, s1, f1, s2);
    }
  }

  lemma BootRequested(file: seq<byte>, f: FifoSystem, k: nat) returns (steps: seq<FifoStep>, g: FifoSystem)
    requires Clean(file, f) && f.sys.h.phase == Ready(|file|) && f.sys.h.cookie + 1 < TWO32 && k < 5
    ensures FifoRun(file, f, steps) && g == FifoExec(file, f, steps) && Lost(steps) == k
    ensures Reachable(file, g) && |g.upq| == 1 && g.upq[0].cmd == NB_BOOT
    ensures (OpenSent(f) ==> OpenSent(g)) && g.sys.h.cookie == f.sys.h.cookie + 1
  {
    var s1, f1 := EndRead(file, f);
    var s2;
    s2, g := WriteSurvives(file, f1, k);
    steps := Glue(file, f, s1, f1, s2);
  }

  lemma EndRead(file: seq<byte>, f: FifoSystem) returns (steps: seq<FifoStep>, g: FifoSystem)
    requires Clean(file, f) && f.sys.h.phase == Ready(|file|) && f.sys.h.cookie + 1 < TWO32
    ensures FifoRun(file, f, steps) && g == FifoExec(file, f, steps) && Lost(steps) == 0
    ensures Clean(file, g) && g.sys.h.cookie == f.sys.h.cookie + 1 && (OpenSent(f) ==> OpenSent(g))
    ensures g.sys.h.phase.Busy? && g.sys.h.phase.io.pc == Writing && g.sys.h.phase.io.retries == 5
    ensures g.sys.h.phase.io.msg.cmd == NB_BOOT
  {
    var read := HostMove(Read(FreadOk));
    OneStep(file, f, read);
    g := FifoApply(file, f, read);
    steps := [read];
    LostOne(read);
  }

  /**
   * Every file that fits the buffer can be booted, even if up to four copies of every request
   * are lost: some run that loses k of each gets the boot request to a target holding the file.
   */
  lemma CanBoot(file: seq<byte>, f: FifoSystem, k: nat) returns (steps: seq<FifoStep>, g: FifoSystem)
    requires FifoInit(f) && |file| <= 32 * 1024 * 1024 && k < 5
    ensures FifoRun(file, f, steps) && g == FifoExec(file, f, steps)
    ensures g.upq != [] && Boots(g.sys.t, g.upq[0]) && Complete(file, g.sys.t)
    ensures g.upq[0].cmd == NB_BOOT && OpenSent(g)
    ensures Reachable(file, g) && g.sys.h.cookie >= 3 && Lost(steps) == k * (g.sys.h.cookie - 1)
  {
    steps, g := BootReached(file, f, k);
    BootInFlight(file, g);
    TimesIs(k, g.sys.h.cookie - 1);
  }

  lemma BootReached(file: seq<byte>, f: FifoSystem, k: nat) returns (steps: seq<FifoStep>, g: FifoSystem)
    requires FifoInit(f) && |file| <= KBUFSIZE && k < 5
    ensures FifoRun(file, f, steps) && g == FifoExec(file, f, steps)
    ensures Reachable(file, g) && |g.upq| == 1 && g.upq[0].cmd == NB_BOOT && OpenSent(g)
    ensures g.sys.h.cookie >= 3 && Lost(steps) == Times(k, g.sys.h.cookie - 1)
  {
    var s1, f1 := FileSent(file, f, k);
    var s2;
    s2, g := BootRequested(file, f1, k);
    steps := Glue(file, f, s1, f1, s2);
  }

  /** A boot request in flight finds the whole file. */
  lemma BootInFlight(file: seq<byte>, f: FifoSystem)
    requires Reachable(file, f) && f.upq != [] && f.upq[0].cmd == NB_BOOT
    ensures Boots(f.sys.t, f.upq[0]) && Complete(file, f.sys.t)
  {
    ReachableInv(file, f);
    assert f.upq[0] in f.sys.up;
    HandleBoot(file, f.sys.t, f.upq[0]);
  }

  function Times(k: nat, n: nat): nat {
    if n == 0 then 0 else k + Times(k, n - 1)
  }

  lemma {:induction false} TimesIs(k: nat, n: nat)
    ensures Times(k, n) == k * n
  {
    if n > 0 {
      TimesIs(k, n - 1);
    }
  }

  /** The whole file is acknowledged. */
  lemma FileSent(file: seq<byte>, f: FifoSystem, k: nat) returns (steps: seq<FifoStep>, g: FifoSystem)
    requires FifoInit(f) && |file| <= KBUFSIZE && k < 5
    ensures FifoRun(file, f, steps) && g == FifoExec(file, f, steps)
    ensures Clean(file, g) && g.sys.h.phase == Ready(|file|) && 2 <= g.sys.h.cookie <= 2 + |file|
    ensures OpenSent(g) && Lost(steps) == Times(k, g.sys.h.cookie - 1)
  {
    var s1, f1 := OpenSucceeds(file, f, k);
    var s2;
    s2, g := AllBlocksSucceed(file, f1, k);
    steps := Glue(file, f, s1, f1, s2);
  }

  /** The first block of a file that fits is on its way to the target, which will store it. */
  lemma FirstBlockSent(file: seq<byte>, f: FifoSystem) returns (steps: seq<FifoStep>, g: FifoSystem)
    requires FifoInit(f) && 0 < |file| <= KBUFSIZE
    ensures FifoRun(file, f, steps) && g == FifoExec(file, f, steps)
    ensures Reachable(file, g) && g.downq == [] && g.sys.h.phase.Busy? && g.upq == [g.sys.h.phase.io.msg]
    ensures FirstBlockStored(g.sys.t, g.upq[0]) && Legit(file, g.upq[0])
  {
    var s1, f1 := OpenSucceeds(file, f, 0);
    var s2, f2 := BlockRead(file, f1);
    g := SendStep(file, f2);
    var s3 := Glue(file, f, s1, f1, s2);
    steps := Glue(file, f, s3, f2, [HostMove(Socket(WriteOk))]);
  }

  /**
   * The one ack that must not be lost exists: every file that is not empty and fits has a run
   * that stores its first block, with the only answer to it in flight.
   */
  lemma FirstAckInFlight(file: seq<byte>, f: FifoSystem) returns (steps: seq<FifoStep>)
    requires FifoInit(f) && 0 < |file| <= KBUFSIZE
    ensures FifoRun(file, f, steps) && OnlyAckAt(FifoExec(file, f, steps), 0)
  {
    var s1, f1 := FirstBlockSent(file, f);
    ReachableInv(file, f1);
    HandleDataStored(file, f1.sys.t, f1.upq[0]);
    var g := ReceiveStep(file, f1);
    steps := Glue(file, f, s1, f1, [Receive]);
  }

  // --- what reordering breaks ---

  /** After the run the channel delivers m, the target boots, and its kernel is not the file. */
  ghost predicate UnsafeBoot(file: seq<byte>, s: System, steps: seq<Step>, m: Msg)
    requires HostValid(file, s.h)
  {
    && Run(file, s, steps)
    && var r := Exec(file, s, steps);
       m in r.up && Boots(r.t, m) && !Complete(file, r.t)
  }

  lemma NoUnsafeBoot(file: seq<byte>, s: System, steps: seq<Step>, m: Msg)
    requires Init(s) && (file == [] || |file| > KBUFSIZE)
    ensures !UnsafeBoot(file, s, steps, m)
  {
    if UnsafeBoot(file, s, steps, m) {
      Reordering.InitInv(file, s);
      Reordering.RunInv(file, s, steps);
      Reordering.DeliverTargetOk(file, Exec(file, s, steps).t, m);
    }
  }

  /** A late copy of the request that opened the file empties the buffer before the boot request. */
  lemma LateReopen(file: seq<byte>, s: System) returns (steps: seq<Step>, m: Msg)
    requires Init(s) && 0 < |file| <= KBUFSIZE
    ensures UnsafeBoot(file, s, steps, m)
  {
    var open := IoBegin(SendFileMsg(), 1).msg;
    var f := FifoSystem(s, [], []);
    var run, g := CanBoot(file, f, 0);
    FifoRefinesReordering(file, f, run);
    ReachableInv(file, g);
    m := g.upq[0];
    assert m in g.sys.up;
    HandleSendFile(file, g.sys.t, open);
    HandleBoot(file, Poll(g.sys.t, open), m);
    var p := Project(file, f, run);
    var r := Apply(file, g.sys, Deliver(open));
    assert [Deliver(open)][1..] == [] && Run(file, r, []) && Exec(file, r, []) == r;
    RunSplit(file, s, p, [Deliver(open)]);
    steps := p + [Deliver(open)];
  }

  /**
   * Over the reordering channel boot safety holds exactly for the empty file and for files
   * that do not fit the buffer: an empty file is complete as soon as it is opened, and a file
   * that does not fit never reaches its boot request. Every other file has a run that boots
   * an incomplete kernel.
   */
  lemma ReorderingBootSafety(file: seq<byte>, s: System)
    requires Init(s)
    ensures (forall steps: seq<Step>, m: Msg :: !UnsafeBoot(file, s, steps, m))
            <==> (file == [] || |file| > 32 * 1024 * 1024)
  {
    if file == [] || |file| > KBUFSIZE {
      forall steps: seq<Step>, m: Msg ensures !UnsafeBoot(file, s, steps, m) {
        NoUnsafeBoot(file, s, steps, m);
      }
    } else {
      var steps, m := LateReopen(file, s);
    }
  }
}
