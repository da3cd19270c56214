/** src/nbserver.c as it stands: the cookie counter, the retry loop of io and the block loop of xfer. */
module NbServer {
  import opened Bytes
  import opened NbMessage
  import opened Host

  datatype WriteOutcome = Written | WouldBlock | WriteError
  datatype ReadOutcome = TimedOut | ReadError | Got(bytes: seq<byte>)

  /** What the next system call on the socket yields if it is a write, and if it is a read. */
  datatype SysCall = SysCall(w: WriteOutcome, r: ReadOutcome)

  function WriteEvent(w: WriteOutcome): IoEvent {
    match w
    case Written => WriteOk
    case WouldBlock => WriteBlocked
    case WriteError => WriteFailed
  }

  function ReadEvent(r: ReadOutcome): IoEvent {
    match r
    case TimedOut => ReadTimeout
    case ReadError => ReadFailed
    case Got(b) => ReadOk(Parse(b))
  }

  /** The environment: the outcome of the k-th system call while msg is outstanding. */
  type Env = (nat, Msg) -> SysCall

  /** From call `bound` on, writes do not block and only the awaited ack is read. */
  ghost predicate Settles(env: Env, bound: nat) {
    forall k: nat, msg: Msg :: k >= bound ==>
      !env(k, msg).w.WouldBlock? && !Idles(msg, ReadEvent(env(k, msg).r))
  }

  /** The events are the outcomes of the calls from k0 on. */
  ghost predicate FromEnv(env: Env, msg: Msg, k0: nat, trace: seq<IoEvent>) {
    forall i :: 0 <= i < |trace| ==>
      trace[i] == WriteEvent(env(k0 + i, msg).w) || trace[i] == ReadEvent(env(k0 + i, msg).r)
  }

  /** The datagram that is the ack of msg, by its bytes. */
  lemma AckBytes(msg: Msg, bytes: seq<byte>)
    ensures Matches(msg, Parse(bytes)) <==>
              && |bytes| >= 16 && bytes[..4] == [0x17, 0x42, 0x77, 0xAA] && bytes[8..12] == [0, 0, 0, 0]
              && bytes[4..8] == LittleEndian(msg.cookie, 4) && bytes[12..16] == LittleEndian(msg.arg, 4)
  {
    if |bytes| >= 16 {
      MagicBytes();
      assert bytes[0..4] == bytes[..4];
      WordIs(bytes, 0, NB_MAGIC);
      WordIs(bytes, 4, msg.cookie);
      WordIs(bytes, 8, NB_ACK);
      WordIs(bytes, 12, msg.arg);
    }
  }

  // --- the run an environment forces ---

  /** The label of the host's next step: the n-th fread, or the outcome of the k-th system call. */
  function Forced(freads: nat -> Fread, env: Env, h: HostState, n: nat, k: nat): HostEvent {
    match h.phase
    case Idle => Start
    case Ready(_) => Read(freads(n))
    case Busy(io, _) => Socket(if io.pc == Writing then WriteEvent(env(k, io.msg).w) else ReadEvent(env(k, io.msg).r))
  }

  function Reads(evs: seq<HostEvent>): nat {
    if evs == [] then 0 else (if evs[0].Read? then 1 else 0) + Reads(evs[1..])
  }

  function Calls(evs: seq<HostEvent>): nat {
    if evs == [] then 0 else (if evs[0].Socket? then 1 else 0) + Calls(evs[1..])
  }

  /** Every label is the one forced by the file and the socket, and xfer is not over before the last. */
  ghost predicate Follows(file: seq<byte>, freads: nat -> Fread, env: Env, h: HostState, n: nat, k: nat,
                          evs: seq<HostEvent>)
    requires HostValid(file, h)
    decreases |evs|
  {
    evs == [] ||
    (&& !h.phase.Idle? && evs[0] == Forced(freads, env, h, n, k) && HostEnabled(h, evs[0])
     && Follows(file, freads, env, HostStep(file, h, evs[0]).0,
                if evs[0].Read? then n + 1 else n, if evs[0].Socket? then k + 1 else k, evs[1..]))
  }

  lemma {:induction false} FollowsJoin(file: seq<byte>, freads: nat -> Fread, env: Env, h: HostState, n: nat, k: nat,
                                       a: seq<HostEvent>, b: seq<HostEvent>)
    requires HostValid(file, h) && Follows(file, freads, env, h, n, k, a) && HostTrace(file, h, a)
    requires Follows(file, freads, env, HostAfter(file, h, a), n + Reads(a), k + Calls(a), b)
    ensures Follows(file, freads, env, h, n, k, a + b)
    decreases |a|
  {
    if a == [] {
      assert a + b == b;
    } else {
      assert (a + b)[0] == a[0] && (a + b)[1..] == a[1..] + b;
      FollowsJoin(file, freads, env, HostStep(file, h, a[0]).0,
                  if a[0].Read? then n + 1 else n, if a[0].Socket? then k + 1 else k, a[1..], b);
    }
  }

  lemma {:induction false} CountsJoin(a: seq<HostEvent>, b: seq<HostEvent>)
    ensures Reads(a + b) == Reads(a) + Reads(b) && Calls(a + b) == Calls(a) + Calls(b)
  {
    if a == [] {
      assert a + b == b;
    } else {
      assert (a + b)[0] == a[0] && (a + b)[1..] == a[1..] + b;
      CountsJoin(a[1..], b);
    }
  }

  lemma OneFollows(file: seq<byte>, freads: nat -> Fread, env: Env, h: HostState, n: nat, k: nat)
    requires HostValid(file, h) && h.phase.Ready?
    ensures var ev := Read(freads(n));
            && Follows(file, freads, env, h, n, k, [ev]) && HostTrace(file, h, [ev])
            && HostAfter(file, h, [ev]) == HostStep(file, h, ev).0
            && Notes(file, h, [ev]) == StepNotes(file, h, ev) && Reads([ev]) == 1 && Calls([ev]) == 0
  {
    var ev := Read(freads(n));
    var g := HostStep(file, h, ev).0;
    assert [ev][1..] == [];
    assert HostTrace(file, g, []) && HostAfter(file, g, []) == g && Notes(file, g, []) == [];
    assert Follows(file, freads, env, g, n + 1, k, []);
  }

  lemma {:induction false} CallFollows(file: seq<byte>, freads: nat -> Fread, env: Env, h: HostState, n: nat, k: nat,
                                       evs: seq<IoEvent>)
    requires HostValid(file, h) && h.phase.Busy? && FromEnv(env, h.phase.io.msg, k, evs)
    requires IoTrace(Pending(h.phase.io), evs) && !IoAfter(Pending(h.phase.io), evs).Pending?
    ensures Follows(file, freads, env, h, n, k, Lift(evs))
    ensures Reads(Lift(evs)) == 0 && Calls(Lift(evs)) == |evs|
    decreases |evs|
  {
    var e := evs[0];
    assert Lift(evs)[0] == Socket(e) && Lift(evs)[1..] == Lift(evs[1..]);
    assert e == WriteEvent(env(k + 0, h.phase.io.msg).w) || e == ReadEvent(env(k + 0, h.phase.io.msg).r);
    var s := IoStep(h.phase.io, e);
    var g := HostStep(file, h, Socket(e)).0;
    if s.Pending? {
      forall i | 0 <= i < |evs[1..]|
        ensures evs[1..][i] == WriteEvent(env(k + 1 + i, h.phase.io.msg).w)
                || evs[1..][i] == ReadEvent(env(k + 1 + i, h.phase.io.msg).r)
      {
        assert evs[1..][i] == evs[i + 1];
        assert k + 1 + i == k + (i + 1);
      }
      CallFollows(file, freads, env, g, n, k + 1, evs[1..]);
    } else {
      assert evs[1..] == [] && IoAfter(s, []) == s;
      assert Follows(file, freads, env, g, n, k + 1, []);
    }
  }

  // --- when everything goes well ---

  /** Every write is taken and every read yields the ack of the outstanding request. */
  ghost predicate Acknowledges(env: Env) {
    forall k: nat, msg: Msg :: env(k, msg).w.Written? && Matches(msg, ReadDatagram(env(k, msg).r))
  }

  function ReadDatagram(r: ReadOutcome): Datagram {
    if r.Got? then Parse(r.bytes) else Runt
  }

  lemma AcknowledgedCall(env: Env, m: Msg, cookie: uint32, k: nat, evs: seq<IoEvent>)
    requires Acknowledges(env) && FromEnv(env, IoBegin(m, cookie).msg, k, evs)
    requires IoTrace(Pending(IoBegin(m, cookie)), evs) && !IoAfter(Pending(IoBegin(m, cookie)), evs).Pending?
    ensures IoAfter(Pending(IoBegin(m, cookie)), evs).Success? && Writes(evs) == 1
  {
    var s := Pending(IoBegin(m, cookie));
    var msg := s.io.msg;
    assert env(k + 0, msg).w.Written?;
    assert evs[0] == WriteEvent(env(k + 0, msg).w) || evs[0] == ReadEvent(env(k + 0, msg).r);
    var t := IoStep(s.io, evs[0]);
    assert evs[0] == WriteOk && evs[1..] != [] && evs[1..][0] == evs[1];
    assert Matches(msg, ReadDatagram(env(k + 1, msg).r));
    assert evs[1] == WriteEvent(env(k + 1, msg).w) || evs[1] == ReadEvent(env(k + 1, msg).r);
    var u := IoStep(t.io, evs[1]);
    assert u.Success? && IoTrace(u, evs[1..][1..]);
    assert evs[1..][1..] == [] && IoAfter(u, []) == u;
    assert Writes(evs) == 1 + Writes(evs[1..]) && Writes(evs[1..]) == Writes(evs[1..][1..]);
  }

  /** The bytes the n-th fread yields at pos: a whole block or the rest, or less after an error. */
  function Yield(file: seq<byte>, f: Fread, pos: nat): (r: nat)
    requires pos <= |file|
    ensures pos + r <= |file|
  {
    var whole := if pos + 1024 < |file| then 1024 else |file| - pos;
    if f.FreadError? && f.n < whole then f.n else whole
  }

  /**
   * What a transfer does from position pos on when every request is acknowledged: each block that
   * fread yields, even one cut short by an error, is written once; a read that yields nothing ends
   * the transfer, with the boot request at the end of the file and without it after an error.
   */
  function Plan(file: seq<byte>, freads: nat -> Fread, n: nat, pos: nat, cookie: uint32): seq<Note>
    requires pos <= |file|
    decreases |file| - pos
  {
    var r := Yield(file, freads(n), pos);
    if r > 0 then
      var m := Msg(0xAA774217, cookie, 3, pos % 0x1_0000_0000, file[pos..pos + r]);
      [Wrote(m), GotAck(m)] + Plan(file, freads, n + 1, pos + r, (cookie + 1) % 0x1_0000_0000)
    else if freads(n).FreadError? then [Quit]
    else BootPlan(cookie)
  }

  function BootPlan(cookie: uint32): seq<Note> {
    var m := Msg(0xAA774217, cookie, 4, 0, []);
    [Wrote(m), GotAck(m)]
  }

  /** "kernel.bin" with its NUL, then the file. */
  function OpenPlan(file: seq<byte>, freads: nat -> Fread, cookie: uint32): seq<Note> {
    var m := Msg(0xAA774217, cookie, 2, 0, ['k' as int, 'e' as int, 'r' as int, 'n' as int, 'e' as int, 'l' as int,
                                            '.' as int, 'b' as int, 'i' as int, 'n' as int, 0]);
    [Wrote(m), GotAck(m)] + Plan(file, freads, 0, 0, (cookie + 1) % 0x1_0000_0000)
  }

  /** evs is forced from h on, and notes is what it did. */
  ghost predicate OnTrack(file: seq<byte>, freads: nat -> Fread, env: Env, h: HostState, evs: seq<HostEvent>,
                          notes: seq<Note>)
    requires HostValid(file, h)
  {
    Follows(file, freads, env, h, 0, 0, evs) && HostTrace(file, h, evs) && notes == Notes(file, h, evs)
  }

  lemma ReadStep(file: seq<byte>, freads: nat -> Fread, env: Env, h: HostState, evs: seq<HostEvent>, notes: seq<Note>)
    requires HostValid(file, h) && OnTrack(file, freads, env, h, evs, notes) && HostAfter(file, h, evs).phase.Ready?
    ensures var g := HostAfter(file, h, evs);
            var ev := Read(freads(Reads(evs)));
            && OnTrack(file, freads, env, h, evs + [ev], notes + StepNotes(file, g, ev))
            && HostAfter(file, h, evs + [ev]) == HostStep(file, g, ev).0
            && Reads(evs + [ev]) == Reads(evs) + 1 && Calls(evs + [ev]) == Calls(evs)
  {
    var g := HostAfter(file, h, evs);
    var ev := Read(freads(Reads(evs)));
    OneFollows(file, freads, env, g, Reads(evs), Calls(evs));
    JoinOnTrack(file, freads, env, h, evs, notes, [ev], StepNotes(file, g, ev));
  }

  lemma JoinOnTrack(file: seq<byte>, freads: nat -> Fread, env: Env, h: HostState, evs: seq<HostEvent>,
                    notes: seq<Note>, more: seq<HostEvent>, moreNotes: seq<Note>)
    requires HostValid(file, h) && OnTrack(file, freads, env, h, evs, notes)
    requires var g := HostAfter(file, h, evs);
             && HostTrace(file, g, more) && moreNotes == Notes(file, g, more)
             && Follows(file, freads, env, g, Reads(evs), Calls(evs), more)
    ensures OnTrack(file, freads, env, h, evs + more, notes + moreNotes)
    ensures HostAfter(file, h, evs + more) == HostAfter(file, HostAfter(file, h, evs), more)
    ensures Reads(evs + more) == Reads(evs) + Reads(more) && Calls(evs + more) == Calls(evs) + Calls(more)
  {
    FollowsJoin(file, freads, env, h, 0, 0, evs, more);
    CountsJoin(evs, more);
    HostTraceJoin(file, h, evs, more);
    NotesJoin(file, h, evs, more);
  }

  lemma CallOnTrack(file: seq<byte>, freads: nat -> Fread, env: Env, h: HostState, evs: seq<HostEvent>,
                    notes: seq<Note>, call: seq<IoEvent>)
    returns (evs': seq<HostEvent>, notes': seq<Note>)
    requires HostValid(file, h) && OnTrack(file, freads, env, h, evs, notes) && HostAfter(file, h, evs).phase.Busy?
    requires var g := HostAfter(file, h, evs);
             && FromEnv(env, g.phase.io.msg, Calls(evs), call) && IoTrace(Pending(g.phase.io), call)
             && !IoAfter(Pending(g.phase.io), call).Pending?
    ensures OnTrack(file, freads, env, h, evs', notes')
    ensures Reads(evs') == Reads(evs) && Calls(evs') == Calls(evs) + |call|
    ensures var g := HostAfter(file, h, evs);
            var ok := IoAfter(Pending(g.phase.io), call).Success?;
            && notes' == notes + (Copies(g.phase.io.msg, Writes(call)) + [if ok then GotAck(g.phase.io.msg) else Quit])
            && HostAfter(file, h, evs') == g.(phase := if ok then Acked(g.phase.io.msg, g.phase.pos) else Idle)
  {
    var g := HostAfter(file, h, evs);
    var more, moreNotes := CallRun(file, freads, env, g, Reads(evs), Calls(evs), call);
    JoinOnTrack(file, freads, env, h, evs, notes, more, moreNotes);
    evs', notes' := evs + more, notes + moreNotes;
  }

  /** A whole call of io from g on, as steps of the host. */
  lemma CallRun(file: seq<byte>, freads: nat -> Fread, env: Env, g: HostState, n: nat, k: nat, call: seq<IoEvent>)
    returns (more: seq<HostEvent>, notes: seq<Note>)
    requires HostValid(file, g) && g.phase.Busy? && FromEnv(env, g.phase.io.msg, k, call)
    requires IoTrace(Pending(g.phase.io), call) && !IoAfter(Pending(g.phase.io), call).Pending?
    ensures HostTrace(file, g, more) && notes == Notes(file, g, more)
    ensures var ok := IoAfter(Pending(g.phase.io), call).Success?;
            && notes == Copies(g.phase.io.msg, Writes(call)) + [if ok then GotAck(g.phase.io.msg) else Quit]
            && HostAfter(file, g, more) == g.(phase := if ok then Acked(g.phase.io.msg, g.phase.pos) else Idle)
    ensures Follows(file, freads, env, g, n, k, more) && Reads(more) == 0 && Calls(more) == |call|
  {
    more := Lift(call);
    HostCall(file, g, call);
    CallNotes(file, g, call);
    CallFollows(file, freads, env, g, n, k, call);
    notes := Notes(file, g, more);
  }

  /** What a call adds to the notes. */
  lemma NotesGrow(notes: seq<Note>, m: Msg, w: nat, ok: bool)
    ensures var r := notes + (Copies(m, w) + [if ok then GotAck(m) else Quit]);
            && AckedData(r) == AckedData(notes) + (if ok && m.cmd == NB_DATA then m.data else [])
            && (BootAcked(r) <==> BootAcked(notes) || (ok && m.cmd == NB_BOOT))
            && (Quit in r <==> Quit in notes || !ok)
  {
    var last := if ok then GotAck(m) else Quit;
    CopiesAck(m, w);
    AckedGrow(notes, Copies(m, w), last);
    LastNote(notes, Copies(m, w), last, m);
  }

  lemma AckedGrow(notes: seq<Note>, c: seq<Note>, last: Note)
    requires AckedData(c) == []
    ensures AckedData(notes + (c + [last])) == AckedData(notes) + AckedBlock(last)
  {
    AckedOne(last);
    AckedDataJoin(c, [last]);
    var d: seq<byte> := AckedData(c + [last]);
    assert d == AckedBlock(last);
    AckedDataJoin(notes, c + [last]);
  }

  lemma AckedOne(note: Note)
    ensures AckedData([note]) == AckedBlock(note)
  {
    assert [note][1..] == [] && AckedData([]) == [];
  }

  lemma LastNote(notes: seq<Note>, c: seq<Note>, last: Note, m: Msg)
    requires forall i :: 0 <= i < |c| ==> c[i] == Wrote(m)
    ensures var r := notes + (c + [last]);
            && (BootAcked(r) <==> BootAcked(notes) || (last.GotAck? && last.m.cmd == NB_BOOT))
            && (Quit in r <==> Quit in notes || last == Quit)
  {
    var r := notes + (c + [last]);
    assert forall i :: 0 <= i < |notes| ==> r[i] == notes[i];
    assert forall i :: |notes| <= i < |r| - 1 ==> r[i] == c[i - |notes|];
    assert r[|r| - 1] == last;
  }

  lemma QuitNote(notes: seq<Note>)
    ensures AckedData(notes + [Quit]) == AckedData(notes)
    ensures BootAcked(notes + [Quit]) <==> BootAcked(notes)
  {
    AckedDataJoin(notes, [Quit]);
    AckedOne(Quit);
    assert forall i :: 0 <= i < |notes| ==> (notes + [Quit])[i] == notes[i];
  }

  /** No read error and every request acknowledged. */
  ghost predicate Smooth(freads: nat -> Fread, env: Env) {
    Acknowledges(env) && forall n: nat :: freads(n).FreadOk?
  }

  /** The blocks up to pos are acknowledged; if all requests are, what is left is the rest of the plan. */
  ghost predicate Filling(file: seq<byte>, freads: nat -> Fread, env: Env, notes: seq<Note>, n: nat, pos: nat,
                          cookie: uint32, c0: uint32)
  {
    && pos <= |file| && AckedData(notes) == file[..pos] && !BootAcked(notes) && Quit !in notes
    && (Acknowledges(env) ==> notes + Plan(file, freads, n, pos, cookie) == OpenPlan(file, freads, c0))
  }

  /** The whole file is acknowledged and only the boot request is left. */
  ghost predicate Filled(file: seq<byte>, freads: nat -> Fread, env: Env, notes: seq<Note>, cookie: uint32, c0: uint32)
  {
    && AckedData(notes) == file && !BootAcked(notes) && Quit !in notes
    && (Acknowledges(env) ==> notes + BootPlan(cookie) == OpenPlan(file, freads, c0))
  }

  /** xfer gave up: no boot request was acknowledged, and the blocks that were are a prefix of the file. */
  ghost predicate GaveUp(file: seq<byte>, notes: seq<Note>) {
    Quit in notes && !BootAcked(notes) && AckedData(notes) <= file
  }

  lemma OpenStep(file: seq<byte>, freads: nat -> Fread, env: Env, h: HostState, cookie: uint32)
    requires HostValid(file, h)
    ensures OnTrack(file, freads, env, h, [], []) && HostAfter(file, h, []) == h
    ensures AckedData([]) == [] && !BootAcked([])
    ensures var m := IoBegin(SendFileMsg(), cookie).msg;
            [] + [Wrote(m), GotAck(m)] + Plan(file, freads, 0, 0, (cookie + 1) % TWO32)
            == OpenPlan(file, freads, cookie)
  {
  }

  lemma BlockStep(file: seq<byte>, freads: nat -> Fread, env: Env, notes: seq<Note>, n: nat, pos: nat,
                  cookie: uint32, c0: uint32)
    requires Filling(file, freads, env, notes, n, pos, cookie, c0) && FreadLen(file, pos, freads(n)) > 0
    ensures var r := FreadLen(file, pos, freads(n));
            var m := IoBegin(DataMsg(file, pos, r), cookie).msg;
            && file[..pos] + m.data == file[..pos + r]
            && (Acknowledges(env) ==>
                  notes + [Wrote(m), GotAck(m)] + Plan(file, freads, n + 1, pos + r, (cookie + 1) % 0x1_0000_0000)
                  == OpenPlan(file, freads, c0))
  {
    var r := FreadLen(file, pos, freads(n));
    var m := IoBegin(DataMsg(file, pos, r), cookie).msg;
    assert Yield(file, freads(n), pos) == r;
    Assoc(notes, [Wrote(m), GotAck(m)], Plan(file, freads, n + 1, pos + r, (cookie + 1) % 0x1_0000_0000));
  }

  /** A read that yields nothing. */
  lemma EndStep(file: seq<byte>, freads: nat -> Fread, env: Env, notes: seq<Note>, n: nat, pos: nat,
                cookie: uint32, c0: uint32)
    requires Filling(file, freads, env, notes, n, pos, cookie, c0) && FreadLen(file, pos, freads(n)) == 0
    ensures freads(n).FreadOk? ==> pos == |file| && Filled(file, freads, env, notes, cookie, c0)
    ensures freads(n).FreadError? ==>
              GaveUp(file, notes + [Quit]) && (Acknowledges(env) ==> notes + [Quit] == OpenPlan(file, freads, c0))
  {
    assert Yield(file, freads(n), pos) == 0;
    assert file[..|file|] == file;
    QuitNote(notes);
  }

  class NbServer {
    var cookie: uint32

    constructor ()
      ensures cookie == 1
    {
      cookie := 1;
    }

    /** The tests io makes on a datagram, in its order. */
    static method IsAck(msg: Msg, bytes: seq<byte>) returns (yes: bool)
      ensures yes <==> Matches(msg, Parse(bytes))
      ensures yes <==> |bytes| >= 16 && bytes[..4] == [0x17, 0x42, 0x77, 0xAA] && bytes[8..12] == [0, 0, 0, 0]
                       && bytes[4..8] == LittleEndian(msg.cookie, 4) && bytes[12..16] == LittleEndian(msg.arg, 4)
    {
      AckBytes(msg, bytes);
      if |bytes| < HEADER_LEN {
        return false;
      }
      if Word(bytes, 0) != NB_MAGIC {
        return false;
      }
      if Word(bytes, 4) != msg.cookie {
        return false;
      }
      if Word(bytes, 12) != msg.arg {
        return false;
      }
      return Word(bytes, 8) == NB_ACK;
    }

    /**
     * io, for every environment in which only finitely many writes block and only finitely
     * many datagrams are not the awaited ack: it returns, and the calls it made form a run of
     * the protocol's call that ended in success or failure as returned.
     */
    method Io(m: Msg, env: Env, k0: nat, ghost bound: nat)
      returns (ok: bool, k: nat, ghost trace: seq<IoEvent>)
      requires Settles(env, bound)
      modifies this
      ensures cookie == (old(cookie) + 1) % TWO32
      ensures IoTrace(Pending(IoBegin(m, old(cookie))), trace)
      ensures IoAfter(Pending(IoBegin(m, old(cookie))), trace) == if ok then Success else Failure
      ensures k == k0 + |trace| && FromEnv(env, IoBegin(m, old(cookie)).msg, k0, trace)
    {
      var retries := 5;
      var msg := m.(magic := NB_MAGIC, cookie := cookie);
      cookie := (cookie + 1) % TWO32;
      ghost var start := Pending(IoBegin(m, old(cookie)));
      trace, k := [], k0;
      while true
        invariant 1 <= retries && k == k0 + |trace|
        invariant cookie == (old(cookie) + 1) % TWO32
        invariant IoTrace(start, trace) && IoAfter(start, trace) == Pending(Host.Io(msg, retries, Writing))
        invariant FromEnv(env, msg, k0, trace)
        decreases retries, bound - k
      {
        var w := env(k, msg).w;
        IoTraceSnoc(start, trace, WriteEvent(w));
        trace, k := trace + [WriteEvent(w)], k + 1;
        if w.WouldBlock? {
          continue;
        }
        if w.WriteError? {
          return false, k, trace;
        }
        var r;
        r, k, trace := Await(msg, env, k, bound, k0, trace, start, retries);
        if r.Got? {
          return true, k, trace;
        }
        if r.ReadError? {
          return false, k, trace;
        }
        retries := retries - 1;
        if retries == 0 {
          return false, k, trace;
        }
      }
    }

    /** From the label `again` on: read until an ack, a timeout or an error. */
    static method Await(msg: Msg, env: Env, k1: nat, ghost bound: nat,
                        ghost k0: nat, ghost trace0: seq<IoEvent>, ghost start: IoStatus, ghost retries: nat)
      returns (r: ReadOutcome, k: nat, ghost trace: seq<IoEvent>)
      requires Settles(env, bound) && k1 == k0 + |trace0| && retries >= 1
      requires IoTrace(start, trace0) && IoAfter(start, trace0) == Pending(Host.Io(msg, retries, Reading))
      requires FromEnv(env, msg, k0, trace0)
      ensures k == k0 + |trace| && IoTrace(start, trace) && FromEnv(env, msg, k0, trace)
      ensures IoAfter(start, trace) == IoStep(Host.Io(msg, retries, Reading), ReadEvent(r))
      ensures r.Got? ==> Matches(msg, Parse(r.bytes))
      ensures k > k1
    {
      trace, k := trace0, k1;
      while true
        invariant k == k0 + |trace| && k >= k1
        invariant IoTrace(start, trace) && IoAfter(start, trace) == Pending(Host.Io(msg, retries, Reading))
        invariant FromEnv(env, msg, k0, trace)
        decreases bound - k
      {
        r := env(k, msg).r;
        IoTraceSnoc(start, trace, ReadEvent(r));
        trace, k := trace + [ReadEvent(r)], k + 1;
        if !r.Got? {
          return;
        }
        var acked := IsAck(msg, r.bytes);
        if acked {
          return;
        }
      }
    }

    /**
     * xfer of one file: the run that the file and the socket force, from the opening request to
     * the first return to idle. notes is what it did. It booted if and only if the boot request
     * was acknowledged, which is so unless it gave up; then the acknowledged blocks are the file.
     * If every request is acknowledged it does what the plan says, whatever fread yields.
     */
    method Xfer(file: seq<byte>, freads: nat -> Fread, env: Env, ghost bound: nat)
      returns (booted: bool, ghost trace: seq<HostEvent>, ghost notes: seq<Note>)
      requires Settles(env, bound)
      modifies this
      ensures var h := HostStep(file, HostState(old(cookie), Idle), Start).0;
              && Follows(file, freads, env, h, 0, 0, trace) && HostTrace(file, h, trace)
              && HostAfter(file, h, trace) == HostState(cookie, Idle) && notes == Notes(file, h, trace)
      ensures booted <==> BootAcked(notes)
      ensures booted <==> Quit !in notes
      ensures AckedData(notes) <= file && (booted ==> AckedData(notes) == file)
      ensures Smooth(freads, env) ==> booted
      ensures Acknowledges(env) ==> notes == OpenPlan(file, freads, old(cookie))
    {
      ghost var h := HostStep(file, HostState(old(cookie), Idle), Start).0;
      booted := false;
      var ok, k;
      ok, k, trace, notes := Open(file, freads, env, bound, h);
      if ok {
        ok, k, trace, notes := Blocks(file, freads, env, k, bound, trace, h, notes, old(cookie));
        if ok {
          booted, trace, notes := Boot(file, freads, env, k, bound, trace, h, notes, old(cookie));
        }
      }
    }

    /** The request that opens the file on the target. */
    method Open(ghost file: seq<byte>, ghost freads: nat -> Fread, env: Env, ghost bound: nat, ghost h: HostState)
      returns (ok: bool, k: nat, ghost trace: seq<HostEvent>, ghost notes: seq<Note>)
      requires Settles(env, bound) && h == Begin(HostState(cookie, Idle), SendFileMsg(), 0)
      modifies this
      ensures OnTrack(file, freads, env, h, trace, notes) && k == Calls(trace) && Reads(trace) == 0
      ensures ok ==> HostAfter(file, h, trace) == HostState(cookie, Ready(0))
      ensures ok ==> Filling(file, freads, env, notes, 0, 0, cookie, old(cookie))
      ensures !ok ==> HostAfter(file, h, trace) == HostState(cookie, Idle) && GaveUp(file, notes)
      ensures Acknowledges(env) ==> ok
    {
      OpenStep(file, freads, env, h, cookie);
      ok, k, trace, notes := Call(file, SendFileMsg(), freads, env, 0, bound, [], h, []);
      assert AckedData(notes) == file[..0];
    }

    /** The boot request, once the whole file is acknowledged. */
    method Boot(ghost file: seq<byte>, ghost freads: nat -> Fread, env: Env, k0: nat, ghost bound: nat,
                ghost trace0: seq<HostEvent>, ghost h: HostState, ghost notes0: seq<Note>, ghost c0: uint32)
      returns (ok: bool, ghost trace: seq<HostEvent>, ghost notes: seq<Note>)
      requires Settles(env, bound) && HostValid(file, h)
      requires OnTrack(file, freads, env, h, trace0, notes0) && k0 == Calls(trace0)
      requires HostAfter(file, h, trace0) == Begin(HostState(cookie, Ready(|file|)), BootMsg(), |file|)
      requires Filled(file, freads, env, notes0, cookie, c0)
      modifies this
      ensures OnTrack(file, freads, env, h, trace, notes) && HostAfter(file, h, trace) == HostState(cookie, Idle)
      ensures ok ==> BootAcked(notes) && Quit !in notes && AckedData(notes) == file
      ensures !ok ==> GaveUp(file, notes)
      ensures Acknowledges(env) ==> ok && notes == OpenPlan(file, freads, c0)
    {
      var k;
      ok, k, trace, notes := Call(file, BootMsg(), freads, env, k0, bound, trace0, h, notes0);
    }

    /** The block loop: the file is acknowledged and the boot request prepared, or it gave up. */
    method Blocks(file: seq<byte>, freads: nat -> Fread, env: Env, k0: nat, ghost bound: nat,
                  ghost trace0: seq<HostEvent>, ghost h: HostState, ghost notes0: seq<Note>, ghost c0: uint32)
      returns (ok: bool, k: nat, ghost trace: seq<HostEvent>, ghost notes: seq<Note>)
      requires Settles(env, bound) && HostValid(file, h)
      requires OnTrack(file, freads, env, h, trace0, notes0) && k0 == Calls(trace0) && Reads(trace0) == 0
      requires HostAfter(file, h, trace0) == HostState(cookie, Ready(0))
      requires Filling(file, freads, env, notes0, 0, 0, cookie, c0)
      modifies this
      ensures OnTrack(file, freads, env, h, trace, notes) && k == Calls(trace)
      ensures ok ==> HostAfter(file, h, trace) == Begin(HostState(cookie, Ready(|file|)), BootMsg(), |file|)
      ensures ok ==> Filled(file, freads, env, notes, cookie, c0)
      ensures !ok ==> HostAfter(file, h, trace) == HostState(cookie, Idle) && GaveUp(file, notes)
      ensures !ok && Acknowledges(env) ==> notes == OpenPlan(file, freads, c0)
      ensures Smooth(freads, env) ==> ok
    {
      var pos, n, more := 0, 0, true;
      ok, k, trace, notes := true, k0, trace0, notes0;
      while ok && more
        invariant pos <= |file| && OnTrack(file, freads, env, h, trace, notes) && k == Calls(trace)
        invariant ok && more ==> n == Reads(trace) && HostAfter(file, h, trace) == HostState(cookie, Ready(pos))
        invariant ok && !more ==>
                    pos == |file| && HostAfter(file, h, trace) == Begin(HostState(cookie, Ready(pos)), BootMsg(), pos)
        invariant ok && more ==> Filling(file, freads, env, notes, n, pos, cookie, c0)
        invariant ok && !more ==> Filled(file, freads, env, notes, cookie, c0)
        invariant !ok ==> HostAfter(file, h, trace) == HostState(cookie, Idle) && GaveUp(file, notes)
        invariant !ok && Acknowledges(env) ==> notes == OpenPlan(file, freads, c0)
        invariant Smooth(freads, env) ==> ok
        decreases |file| - pos, ok && more
      {
        var r := FreadLen(file, pos, freads(n));
        ReadStep(file, freads, env, h, trace, notes);
        trace := trace + [Read(freads(n))];
        if r == 0 {
          EndStep(file, freads, env, notes, n, pos, cookie, c0);
          if freads(n).FreadError? {
            notes := notes + [Quit];
            ok := false;
          } else {
            more := false;
          }
        } else {
          ok, k, trace, notes := Block(file, freads, env, k, bound, trace, h, notes, c0, n, pos, r);
          pos, n := if ok then pos + r else pos, n + 1;
        }
      }
    }

    /** One block that fread has filled with r bytes. */
    method Block(file: seq<byte>, ghost freads: nat -> Fread, env: Env, k0: nat, ghost bound: nat,
                 ghost trace0: seq<HostEvent>, ghost h: HostState, ghost notes0: seq<Note>, ghost c0: uint32,
                 ghost n: nat, pos: nat, r: nat)
      returns (ok: bool, k: nat, ghost trace: seq<HostEvent>, ghost notes: seq<Note>)
      requires Settles(env, bound) && HostValid(file, h)
      requires OnTrack(file, freads, env, h, trace0, notes0) && k0 == Calls(trace0)
      requires Filling(file, freads, env, notes0, n, pos, cookie, c0) && 0 < r == FreadLen(file, pos, freads(n))
      requires HostAfter(file, h, trace0) == Begin(HostState(cookie, Ready(pos)), DataMsg(file, pos, r), pos)
      modifies this
      ensures OnTrack(file, freads, env, h, trace, notes) && k == Calls(trace) && Reads(trace) == Reads(trace0)
      ensures ok ==> HostAfter(file, h, trace) == HostState(cookie, Ready(pos + r))
      ensures ok ==> Filling(file, freads, env, notes, n + 1, pos + r, cookie, c0)
      ensures !ok ==> HostAfter(file, h, trace) == HostState(cookie, Idle) && GaveUp(file, notes)
      ensures Acknowledges(env) ==> ok
    {
      BlockStep(file, freads, env, notes0, n, pos, cookie, c0);
      ok, k, trace, notes := Call(file, DataMsg(file, pos, r), freads, env, k0, bound, trace0, h, notes0);
    }

    /** One request of xfer, prepared by the step before: io runs. */
    method Call(ghost file: seq<byte>, m: Msg, ghost freads: nat -> Fread, env: Env, k0: nat, ghost bound: nat,
                ghost trace0: seq<HostEvent>, ghost h: HostState, ghost notes0: seq<Note>)
      returns (ok: bool, k: nat, ghost trace: seq<HostEvent>, ghost notes: seq<Note>)
      requires Settles(env, bound) && HostValid(file, h)
      requires OnTrack(file, freads, env, h, trace0, notes0) && k0 == Calls(trace0)
      requires var g := HostAfter(file, h, trace0);
               g.phase.Busy? && g.phase.io == IoBegin(m, cookie) && g.cookie == (cookie + 1) % TWO32
      modifies this
      ensures cookie == (old(cookie) + 1) % TWO32
      ensures OnTrack(file, freads, env, h, trace, notes) && k == Calls(trace) && Reads(trace) == Reads(trace0)
      ensures var g := HostAfter(file, h, trace0);
              HostAfter(file, h, trace) == HostState(cookie, if ok then Acked(g.phase.io.msg, g.phase.pos) else Idle)
      ensures var msg := IoBegin(m, old(cookie)).msg;
              && AckedData(notes) == AckedData(notes0) + (if ok && m.cmd == NB_DATA then m.data else [])
              && (BootAcked(notes) <==> BootAcked(notes0) || (ok && m.cmd == NB_BOOT))
              && (Quit in notes <==> Quit in notes0 || !ok)
              && (Acknowledges(env) ==> ok && notes == notes0 + [Wrote(msg), GotAck(msg)])
    {
      ghost var evs;
      ok, k, evs := Io(m, env, k0, bound);
      ghost var g := HostAfter(file, h, trace0);
      trace, notes := CallOnTrack(file, freads, env, h, trace0, notes0, evs);
      NotesGrow(notes0, g.phase.io.msg, Writes(evs), ok);
      if Acknowledges(env) {
        AcknowledgedCall(env, m, old(cookie), k0, evs);
        assert Copies(g.phase.io.msg, 1) == [Wrote(g.phase.io.msg)] + Copies(g.phase.io.msg, 0);
      }
    }
  }
}
