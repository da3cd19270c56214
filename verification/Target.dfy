/** The target side of the transfer protocol as a step function (src/netboot.c, src/osboot.c). */
module Target {
  import opened Bytes
  import opened NbMessage

  datatype FileId = Kernel | Ramdisk | Cmdline

  /** nbfile: data is the whole buffer, so its length is the C field `size`. */
  datatype NbFile = NbFile(data: seq<byte>, offset: nat)

  predicate HasAllFiles(m: map<FileId, NbFile>) {
    forall id: FileId :: id in m
  }

  /** The loader's three buffers: nbkernel, nbramdisk and nbcmdline. */
  type Files = m: map<FileId, NbFile> | HasAllFiles(m)
    witness FilesOf(NbFile([], 0), NbFile([], 0), NbFile([], 0))

  function FileOf(id: FileId, k: NbFile, r: NbFile, c: NbFile): NbFile {
    match id
    case Kernel => k
    case Ramdisk => r
    case Cmdline => c
  }

  function FilesOf(k: NbFile, r: NbFile, c: NbFile): (m: map<FileId, NbFile>)
    ensures HasAllFiles(m)
  {
    map id: FileId | true :: FileOf(id, k, r, c)
  }

  const KBUFSIZE: nat := 32 * 1024 * 1024

  datatype TargetState = TargetState(
    lastCookie: uint32, lastCmd: uint32, lastArg: uint32,
    lastAckCmd: uint32, lastAckArg: uint32,
    bootNow: bool, active: bool,
    item: Option<FileId>,
    files: Files)
  {
    predicate SameFiles(t: TargetState) {
      files == t.files && item == t.item
    }
  }

  // "kernel.bin" with its NUL, "ramdisk.bin" and "cmdline" without
  const KERNEL_NAME: seq<byte> := [107, 101, 114, 110, 101, 108, 46, 98, 105, 110, 0]
  const RAMDISK_NAME: seq<byte> := [114, 97, 109, 100, 105, 115, 107, 46, 98, 105, 110]
  const CMDLINE_NAME: seq<byte> := [99, 109, 100, 108, 105, 110, 101]

  predicate HasPrefix(name: seq<byte>, p: seq<byte>) {
    |p| <= |name| && name[..|p|] == p
  }

  function Lookup(name: seq<byte>): Option<FileId> {
    if HasPrefix(name, KERNEL_NAME) then Some(Kernel)
    else if HasPrefix(name, RAMDISK_NAME) then Some(Ramdisk)
    else if HasPrefix(name, CMDLINE_NAME) then Some(Cmdline)
    else None
  }

  function CleanByte(b: byte): byte {
    if b < 32 || b > 127 then 46 else b
  }

  /** The file name as the target rewrites it: NUL-terminated, unprintable bytes as dots. */
  function Sanitize(d: seq<byte>): (s: seq<byte>)
    requires d != []
    ensures |s| == |d|
  {
    seq(|d|, i requires 0 <= i < |d| => if i == |d| - 1 then 0 else CleanByte(d[i]))
  }

  function Store(f: NbFile, d: seq<byte>): NbFile
    requires f.offset + |d| <= |f.data|
  {
    NbFile(Splice(f.data, f.offset, d), f.offset + |d|)
  }

  /** The state after a command together with the acknowledgement it asks for. */
  datatype Outcome = Silent | Answer(state: TargetState, ackCmd: uint32, ackArg: uint32)

  /** The switch on the command; Silent is a plain return. */
  function Dispatch(t: TargetState, m: Msg): Outcome {
    if m.cmd == NB_COMMAND then
      if m.data == [] then Silent else Answer(t, NB_ACK, 0)
    else if m.cmd == NB_SEND_FILE then
      if m.data == [] then Silent
      else
        match Lookup(Sanitize(m.data))
        case Some(id) => Answer(t.(item := Some(id), files := t.files[id := t.files[id].(offset := 0)]), NB_ACK, 0)
        case None => Answer(t.(item := None), NB_ERROR_BAD_FILE, 0)
    else if m.cmd == NB_DATA then
      if t.item.None? then Silent
      else
        var f := t.files[t.item.value];
        if m.arg != f.offset then Silent
        else if f.offset + |m.data| > |f.data| then Answer(t, NB_ERROR_TOO_LARGE, m.arg)
        else
          Answer(t.(files := t.files[t.item.value := Store(f, m.data)]), NB_ACK, m.arg)
    else if m.cmd == NB_BOOT then
      Answer(t.(bootNow := true), NB_ACK, 0)
    else
      Answer(t, NB_ERROR_BAD_CMD, 0)
  }

  /** The first two conjuncts of the resend guard. */
  predicate SameCall(t: TargetState, m: Msg) {
    t.lastCookie == m.cookie && t.lastCmd == m.cmd
  }

  /**
   * One message. The guard's third conjunct assigns last_arg and tests the
   * assigned value, so the remembered ack is resent only when m.arg is not 0.
   */
  function Handle(t: TargetState, m: Msg): (TargetState, Option<Msg>) {
    if SameCall(t, m) && m.arg != 0 then
      (t.(lastArg := m.arg, active := true),
       Some(Msg(NB_MAGIC, t.lastCookie, t.lastAckCmd, t.lastAckArg, [])))
    else
      var u := if SameCall(t, m) then t.(lastArg := m.arg) else t;
      match Dispatch(u, m)
      case Silent => (u, None)
      case Answer(v, cmd, arg) =>
        (v.(lastCookie := m.cookie, lastCmd := m.cmd, lastArg := m.arg,
            lastAckCmd := cmd, lastAckArg := arg, active := true),
         Some(Msg(NB_MAGIC, m.cookie, cmd, arg, [])))
  }

  /** m is stored by t: a data block at the write pointer that fits the buffer. */
  predicate Accepts(t: TargetState, m: Msg) {
    && m.cmd == NB_DATA
    && !(SameCall(t, m) && m.arg != 0)
    && t.item.Some?
    && m.arg == t.files[t.item.value].offset
    && m.arg + |m.data| <= |t.files[t.item.value].data|
  }

  // --- one-message properties ---

  lemma HandleDataFrame(t: TargetState, m: Msg, id: FileId)
    requires m.cmd == NB_DATA
    ensures (t.item == Some(id) && Accepts(t, m)) || Handle(t, m).0.files[id] == t.files[id]
    ensures |Handle(t, m).0.files[id].data| == |t.files[id].data|
  {
  }

  lemma HandleSendFileFrame(t: TargetState, m: Msg, id: FileId)
    requires m.cmd == NB_SEND_FILE
    ensures Handle(t, m).0.item == Some(id) || Handle(t, m).0.files[id] == t.files[id]
    ensures Handle(t, m).0.files[id].data == t.files[id].data
  {
  }

  lemma HandleOtherFrame(t: TargetState, m: Msg, id: FileId)
    requires m.cmd != NB_DATA && m.cmd != NB_SEND_FILE
    ensures Handle(t, m).0.files[id] == t.files[id]
  {
  }

  /** A message changes no buffer but the one it names or the one being filled. */
  lemma HandleFrame(t: TargetState, m: Msg, id: FileId)
    ensures var u := Handle(t, m).0;
            && (u.files[id].data != t.files[id].data ==> t.item == Some(id) && Accepts(t, m))
            && (u.files[id].offset != t.files[id].offset ==>
                  (t.item == Some(id) && Accepts(t, m)) || (u.item == Some(id) && m.cmd == NB_SEND_FILE))
            && |u.files[id].data| == |t.files[id].data|
  {
    if m.cmd == NB_DATA {
      HandleDataFrame(t, m, id);
    } else if m.cmd == NB_SEND_FILE {
      HandleSendFileFrame(t, m, id);
    } else {
      HandleOtherFrame(t, m, id);
    }
  }

  /** The only case in which a repeated message is not answered like the first. */
  predicate FirstBlockStored(t: TargetState, m: Msg) {
    Accepts(t, m) && m.arg == 0 && m.data != []
  }

  predicate RepeatLike(t: TargetState, m: Msg) {
    var (u, reply) := Handle(t, m);
    && Handle(u, m).0.SameFiles(u)
    && Handle(u, m).1 == reply
  }

  lemma RepeatNonZero(t: TargetState, m: Msg)
    requires m.arg != 0
    ensures RepeatLike(t, m)
  {
    if !SameCall(t, m) && Dispatch(t, m).Answer? {
      var u := Handle(t, m).0;
      assert SameCall(u, m);
    }
  }

  lemma RepeatFirstBlock(t: TargetState, m: Msg)
    requires m.arg == 0 && m.cmd == NB_DATA
    ensures var (u, reply) := Handle(t, m);
            && Handle(u, m).0.SameFiles(u)
            && (Handle(u, m).1 == reply <==> !FirstBlockStored(t, m))
            && (FirstBlockStored(t, m) ==> Handle(u, m).1 == None)
  {
    var u := Handle(t, m).0;
    if u.item.Some? && m.data == [] {
      assert Splice(u.files[u.item.value].data, m.arg, []) == u.files[u.item.value].data;
    }
  }

  lemma RepeatOther(t: TargetState, m: Msg)
    requires m.arg == 0 && m.cmd != NB_DATA
    ensures RepeatLike(t, m)
  {
    if m.cmd == NB_SEND_FILE {
      RepeatSendFile(t, m);
    }
  }

  lemma RepeatSendFile(t: TargetState, m: Msg)
    requires m.arg == 0 && m.cmd == NB_SEND_FILE
    ensures RepeatLike(t, m)
  {
    if m.data != [] {
      match Lookup(Sanitize(m.data))
      case None =>
      case Some(id) =>
    }
  }

  /**
   * Handling a message twice in a row leaves the files as handling it once does,
   * and the second answer equals the first unless the message was the first
   * non-empty block of a file and was stored: that one the target answers once only.
   */
  lemma ResendIdempotence(t: TargetState, m: Msg)
    ensures var (u, reply) := Handle(t, m);
            && Handle(u, m).0.SameFiles(u)
            && (Handle(u, m).1 == reply <==> !FirstBlockStored(t, m))
            && (FirstBlockStored(t, m) ==> Handle(u, m).1 == None)
  {
    if m.arg != 0 {
      RepeatNonZero(t, m);
    } else if m.cmd == NB_DATA {
      RepeatFirstBlock(t, m);
    } else {
      RepeatOther(t, m);
    }
  }
}
