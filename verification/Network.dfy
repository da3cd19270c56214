/**
 * Host, target and a channel that may lose, duplicate and reorder datagrams
 * arbitrarily, as one labelled transition system.
 */
module Network {
  import opened Bytes
  import opened NbMessage
  import opened Target
  import opened Host

  /**
   * up and down hold every datagram ever sent in each direction: a channel that
   * loses, repeats and reorders delivers any of them at any time, or never.
   * stored is a history variable: the data messages the target has stored.
   */
  datatype System = System(h: HostState, t: TargetState, up: set<Msg>, down: set<Msg>, stored: set<Msg>)

  datatype Step = HostAct(ev: HostEvent) | Deliver(m: Msg)

  predicate TargetInit(t: TargetState) {
    && t.lastCookie == 0 && t.lastCmd == 0 && t.lastArg == 0
    && t.lastAckCmd == 0 && t.lastAckArg == 0
    && !t.bootNow && !t.active && t.item == None
    && t.files[Kernel].offset == 0
    && |t.files[Kernel].data| == KBUFSIZE
  }

  predicate Init(s: System) {
    && s.h == HostState(1, Idle)
    && TargetInit(s.t)
    && s.up == {} && s.down == {} && s.stored == {}
  }

  /** The cookie counter does not wrap: fewer than 2^32 - 1 calls of io are made. */
  predicate NoWrap(h: HostState, ev: HostEvent) {
    ev.Socket? || h.cookie + 1 < TWO32
  }

  /** A datagram the host reads is a runt or one the target sent. */
  predicate Carried(ev: HostEvent, down: set<Msg>) {
    ev.Socket? && ev.e.ReadOk? && ev.e.d.Full? ==> ev.e.d.msg in down
  }

  predicate Enabled(s: System, step: Step) {
    match step
    case HostAct(ev) => HostEnabled(s.h, ev) && NoWrap(s.h, ev) && Carried(ev, s.down)
    case Deliver(m) => m in s.up
  }

  function Add(s: set<Msg>, m: Option<Msg>): set<Msg> {
    if m.Some? then s + {m.value} else s
  }

  /** netboot_poll with one received message: a boot request is reported and forgotten. */
  function Poll(t: TargetState, m: Msg): TargetState {
    Handle(t, m).0.(bootNow := false)
  }

  predicate Boots(t: TargetState, m: Msg) {
    Handle(t, m).0.bootNow
  }

  function Apply(file: seq<byte>, s: System, step: Step): (r: System)
    requires HostValid(file, s.h) && Enabled(s, step)
    ensures HostValid(file, r.h)
  {
    match step
    case HostAct(ev) =>
      var (h, out) := HostStep(file, s.h, ev);
      s.(h := h, up := Add(s.up, out))
    case Deliver(m) =>
      s.(t := Poll(s.t, m),
         down := Add(s.down, Handle(s.t, m).1),
         stored := if Accepts(s.t, m) then s.stored + {m} else s.stored)
  }

  predicate Run(file: seq<byte>, s: System, steps: seq<Step>)
    requires HostValid(file, s.h)
    decreases |steps|
  {
    steps == [] || (Enabled(s, steps[0]) && Run(file, Apply(file, s, steps[0]), steps[1..]))
  }

  function Exec(file: seq<byte>, s: System, steps: seq<Step>): (r: System)
    requires HostValid(file, s.h) && Run(file, s, steps)
    ensures HostValid(file, r.h)
    decreases |steps|
  {
    if steps == [] then s else Exec(file, Apply(file, s, steps[0]), steps[1..])
  }

  /** Runs compose. */
  lemma {:induction false} RunSplit(file: seq<byte>, s: System, a: seq<Step>, b: seq<Step>)
    requires HostValid(file, s.h)
    ensures Run(file, s, a + b) <==> Run(file, s, a) && Run(file, Exec(file, s, a), b)
    ensures Run(file, s, a + b) ==> Exec(file, s, a + b) == Exec(file, Exec(file, s, a), b)
    decreases |a|
  {
    if a == [] {
      assert a + b == b;
    } else {
      assert (a + b)[0] == a[0] && (a + b)[1..] == a[1..] + b;
      if Enabled(s, a[0]) {
        RunSplit(file, Apply(file, s, a[0]), a[1..], b);
      }
    }
  }

  // --- the messages of a transfer and what the target does with each ---

  predicate Legit(file: seq<byte>, m: Msg) {
    || (m.cmd == NB_SEND_FILE && m.arg == 0 && m.data == KERNEL_NAME)
    || (m.cmd == NB_DATA && m.data != [] && m.arg + |m.data| <= |file|
        && m.data == file[m.arg..m.arg + |m.data|])
    || (m.cmd == NB_BOOT && m.arg == 0 && m.data == [] && |file| <= KBUFSIZE)
  }

  /** The kernel buffer holds the first `offset` bytes of the file. */
  predicate Prefix(file: seq<byte>, t: TargetState) {
    var k := t.files[Kernel];
    && |k.data| == KBUFSIZE
    && k.offset <= KBUFSIZE && k.offset <= |file|
    && k.data[..k.offset] == file[..k.offset]
  }

  predicate TargetOk(file: seq<byte>, t: TargetState) {
    Prefix(file, t) && !t.bootNow && (t.item == None || t.item == Some(Kernel))
  }

  /** The kernel buffer holds exactly the file. */
  predicate Complete(file: seq<byte>, t: TargetState) {
    Prefix(file, t) && t.files[Kernel].offset == |file|
  }

  function AckOf(m: Msg, cmd: uint32): Option<Msg> {
    Some(Msg(NB_MAGIC, m.cookie, cmd, m.arg, []))
  }

  lemma KernelNameFound()
    ensures Lookup(Sanitize(KERNEL_NAME)) == Some(Kernel)
  {
    assert Sanitize(KERNEL_NAME) == KERNEL_NAME;
  }

  lemma HandleSendFile(file: seq<byte>, t: TargetState, m: Msg)
    requires TargetOk(file, t) && Legit(file, m) && m.cmd == NB_SEND_FILE
    ensures TargetOk(file, Poll(t, m)) && !Boots(t, m) && !Accepts(t, m)
    ensures Poll(t, m).lastCookie == m.cookie && Poll(t, m).lastAckCmd == NB_ACK
    ensures Poll(t, m).item == Some(Kernel) && Poll(t, m).files[Kernel].offset == 0
    ensures Handle(t, m).1 == AckOf(m, NB_ACK)
  {
    KernelNameFound();
  }

  lemma HandleBoot(file: seq<byte>, t: TargetState, m: Msg)
    requires TargetOk(file, t) && Legit(file, m) && m.cmd == NB_BOOT
    ensures TargetOk(file, Poll(t, m)) && Boots(t, m) && !Accepts(t, m)
    ensures Poll(t, m).lastCookie == m.cookie && Poll(t, m).lastAckCmd == NB_ACK
    ensures Poll(t, m).item == t.item && Poll(t, m).files == t.files
    ensures Handle(t, m).1 == AckOf(m, NB_ACK)
  {
  }

  predicate Unchanged(t: TargetState, u: TargetState) {
    && u.item == t.item && u.files == t.files
    && u.lastCookie == t.lastCookie && u.lastCmd == t.lastCmd
    && u.lastAckCmd == t.lastAckCmd && u.lastAckArg == t.lastAckArg
  }

  /** A data message that is not stored: resent, dropped, or refused as too large. */
  lemma HandleDataRefused(file: seq<byte>, t: TargetState, m: Msg)
    requires TargetOk(file, t) && Legit(file, m) && m.cmd == NB_DATA && !Accepts(t, m)
    ensures TargetOk(file, Poll(t, m)) && !Boots(t, m)
    ensures Poll(t, m).item == t.item && Poll(t, m).files == t.files
    ensures var u := Poll(t, m); var r := Handle(t, m).1;
            || (Unchanged(t, u) && r == None)
            || (Unchanged(t, u) && m.cookie == t.lastCookie && m.arg != 0
                && r == Some(Msg(NB_MAGIC, m.cookie, t.lastAckCmd, t.lastAckArg, [])))
            || (u.lastCookie == m.cookie && u.lastAckCmd == NB_ERROR_TOO_LARGE
                && m.arg == t.files[Kernel].offset && r == AckOf(m, NB_ERROR_TOO_LARGE))
  {
  }

  lemma PrefixExtend(file: seq<byte>, d: seq<byte>, off: nat, blk: seq<byte>)
    requires off + |blk| <= |d| && off + |blk| <= |file|
    requires d[..off] == file[..off] && blk == file[off..off + |blk|]
    ensures Splice(d, off, blk)[..off + |blk|] == file[..off + |blk|]
  {
    assert Splice(d, off, blk)[..off + |blk|] == d[..off] + blk;
    assert file[..off + |blk|] == file[..off] + file[off..off + |blk|];
  }

  lemma HandleDataStored(file: seq<byte>, t: TargetState, m: Msg)
    requires TargetOk(file, t) && Legit(file, m) && Accepts(t, m)
    ensures TargetOk(file, Poll(t, m)) && !Boots(t, m)
    ensures Poll(t, m).lastCookie == m.cookie && Poll(t, m).lastAckCmd == NB_ACK
    ensures m.arg == t.files[Kernel].offset && m.arg + |m.data| <= KBUFSIZE
    ensures Poll(t, m).item == Some(Kernel) && Poll(t, m).files[Kernel].offset == m.arg + |m.data|
    ensures Handle(t, m).1 == AckOf(m, NB_ACK)
  {
    PrefixExtend(file, t.files[Kernel].data, m.arg, m.data);
  }
}
