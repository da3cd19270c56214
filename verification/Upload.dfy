/** Which file a name opens, and that the blocks which follow end up in that very buffer. */
module Upload {
  import opened Bytes
  import opened NbMessage
  import opened Target

  // --- names ---

  /** The characters of an ASCII string as bytes. */
  function Ascii(s: string): seq<byte> {
    seq(|s|, i requires 0 <= i < |s| => (s[i] as int) % 0x80)
  }

  function NameOf(id: FileId): string {
    match id
    case Kernel => "kernel.bin"
    case Ramdisk => "ramdisk.bin"
    case Cmdline => "cmdline"
  }

  predicate Unprintable(b: byte) {
    b < ' ' as int || b > 127
  }

  /** The bytes spell the name; since unprintable bytes become dots, they pass for its dot. */
  predicate Spells(d: seq<byte>, name: string) {
    |name| < |d| && forall i :: 0 <= i < |name| ==> d[i] == name[i] as int || (name[i] == '.' && Unprintable(d[i]))
  }

  lemma NameBytes()
    ensures KERNEL_NAME == Ascii("kernel.bin") + [0]
    ensures RAMDISK_NAME == Ascii("ramdisk.bin") && CMDLINE_NAME == Ascii("cmdline")
  {
  }

  lemma PrefixSpells(d: seq<byte>, name: string)
    requires d != [] && name != [] && forall i :: 0 <= i < |name| ==> ' ' < name[i] < 127 as char
    ensures HasPrefix(Sanitize(d), Ascii(name)) <==> Spells(d, name)
  {
    var s, a := Sanitize(d), Ascii(name);
    if Spells(d, name) {
      assert s[..|a|] == a;
    }
    if HasPrefix(s, a) {
      forall i | 0 <= i < |name| ensures s[i] == name[i] as int {
        assert s[..|a|][i] == a[i];
      }
      assert s[|name| - 1] != 0;
    }
  }

  /**
   * Which file a request opens, from the bytes it carries: the kernel's name must be followed by
   * the last byte, the other two are prefixes; and no other bytes open anything.
   */
  lemma OpensExactly(d: seq<byte>)
    requires d != []
    ensures var id := Lookup(Sanitize(d));
            && (id == Some(Kernel) <==> Spells(d, "kernel.bin") && |d| == 11)
            && (id == Some(Ramdisk) <==> Spells(d, "ramdisk.bin"))
            && (id == Some(Cmdline) <==> Spells(d, "cmdline"))
  {
    NameBytes();
    PrefixSpells(d, "kernel.bin");
    PrefixSpells(d, "ramdisk.bin");
    PrefixSpells(d, "cmdline");
    KernelSpells(d);
    Exclusive(d);
  }

  lemma KernelSpells(d: seq<byte>)
    requires d != []
    ensures HasPrefix(Sanitize(d), Ascii("kernel.bin") + [0]) <==> Spells(d, "kernel.bin") && |d| == 11
  {
    var s, a := Sanitize(d), Ascii("kernel.bin");
    PrefixSpells(d, "kernel.bin");
    if HasPrefix(s, a + [0]) {
      assert s[..11][..10] == s[..10] && (a + [0])[..10] == a;
      assert s[..11][10] == 0;
    }
    if Spells(d, "kernel.bin") && |d| == 11 {
      assert s[..11] == s[..10] + [s[10]];
    }
  }

  lemma Exclusive(d: seq<byte>)
    ensures !(Spells(d, "kernel.bin") && Spells(d, "ramdisk.bin"))
    ensures !(Spells(d, "kernel.bin") && Spells(d, "cmdline")) && !(Spells(d, "ramdisk.bin") && Spells(d, "cmdline"))
  {
    if Spells(d, "kernel.bin") {
      assert d[0] == "kernel.bin"[0] as int;
    }
    if Spells(d, "ramdisk.bin") {
      assert d[0] == "ramdisk.bin"[0] as int;
    }
    if Spells(d, "cmdline") {
      assert d[0] == "cmdline"[0] as int;
    }
  }

  /** The name of a file with its NUL, as a sender puts it into the request. */
  function Named(id: FileId): seq<byte> {
    Ascii(NameOf(id)) + [0]
  }

  lemma NamedOpens(id: FileId)
    ensures Lookup(Sanitize(Named(id))) == Some(id)
  {
    var d := Named(id);
    assert Spells(d, NameOf(id));
    OpensExactly(d);
  }

  // --- the answer to every message ---

  /** m is taken for a copy of the last message. */
  predicate Resend(t: TargetState, m: Msg) {
    m.cookie == t.lastCookie && m.cmd == t.lastCmd && m.arg != 0
  }

  function Reply(m: Msg, cmd: uint32, arg: uint32): Option<Msg> {
    Some(Msg(0xAA774217, m.cookie, cmd, arg, []))
  }

  /** The answer to every message, by its command, and what the target remembers of it. */
  lemma Answers(t: TargetState, m: Msg)
    ensures var (u, r) := Handle(t, m);
            && u.active == (t.active || r.Some?)
            && (u.bootNow <==> t.bootNow || (m.cmd == 4 && !Resend(t, m)))
            && (Resend(t, m) ==> r == Reply(m, t.lastAckCmd, t.lastAckArg) && u.SameFiles(t))
            && (!Resend(t, m) ==>
                  && (m.cmd == 1 ==> u.SameFiles(t) && r == if m.data == [] then None else Reply(m, 0, 0))
                  && (m.cmd == 2 && m.data == [] ==> u.SameFiles(t) && r == None)
                  && (m.cmd == 2 && m.data != [] ==> r == Reply(m, if u.item.None? then 0x80000004 else 0, 0))
                  && (m.cmd == 3 && (t.item.None? || t.files[t.item.value].offset != m.arg) ==>
                        u.SameFiles(t) && r == None)
                  && (m.cmd == 4 ==> u.SameFiles(t) && r == Reply(m, 0, 0))
                  && (m.cmd < 1 || m.cmd > 4 ==> u.SameFiles(t) && r == Reply(m, 0x80000001, 0))
                  && (r.Some? ==> u.lastCookie == m.cookie && u.lastCmd == m.cmd
                                  && u.lastAckCmd == r.value.cmd && u.lastAckArg == r.value.arg)
                  && (r.None? ==> u.lastCookie == t.lastCookie && u.lastCmd == t.lastCmd
                                  && u.lastAckCmd == t.lastAckCmd && u.lastAckArg == t.lastAckArg))
  {
  }

  /** A request that names a file: the one it spells is opened and emptied, or none is. */
  lemma OpenAnswer(t: TargetState, m: Msg)
    requires m.cmd == 2 && m.data != [] && !Resend(t, m)
    ensures var (u, r) := Handle(t, m);
            && u.item == Lookup(Sanitize(m.data)) && u.lastCookie == m.cookie
            && (u.item == Some(Kernel) <==> Spells(m.data, "kernel.bin") && |m.data| == 11)
            && (u.item == Some(Ramdisk) <==> Spells(m.data, "ramdisk.bin"))
            && (u.item == Some(Cmdline) <==> Spells(m.data, "cmdline"))
            && (u.item.Some? ==> u.files[u.item.value] == NbFile(t.files[u.item.value].data, 0))
            && (forall other: FileId :: u.item != Some(other) ==> u.files[other] == t.files[other])
  {
    OpensExactly(m.data);
  }

  /** A block at the write pointer: stored if it fits, refused if it does not. */
  lemma BlockAnswer(t: TargetState, m: Msg)
    requires m.cmd == 3 && !Resend(t, m) && t.item.Some? && t.files[t.item.value].offset == m.arg
    ensures var (u, r) := Handle(t, m);
            var f, g := t.files[t.item.value], u.files[t.item.value];
            && u.item == t.item
            && (m.arg + |m.data| > |f.data| ==> u.files == t.files && r == Reply(m, 0x80000003, m.arg))
            && (m.arg + |m.data| <= |f.data| ==>
                  && g.offset == m.arg + |m.data| && r == Reply(m, 0, m.arg)
                  && |g.data| == |f.data| && g.data[..m.arg] == f.data[..m.arg]
                  && g.data[m.arg..g.offset] == m.data && g.data[g.offset..] == f.data[g.offset..])
  {
    var f := t.files[t.item.value];
    if m.arg + |m.data| <= |f.data| {
      assert Handle(t, m).0.files[t.item.value] == Store(f, m.data);
      StoreBytes(f, m.data);
    }
  }

  lemma StoreBytes(f: NbFile, d: seq<byte>)
    requires f.offset + |d| <= |f.data|
    ensures var g := Store(f, d);
            && g.offset == f.offset + |d| && |g.data| == |f.data| && g.data[..f.offset] == f.data[..f.offset]
            && g.data[f.offset..g.offset] == d && g.data[g.offset..] == f.data[g.offset..]
  {
  }

  // --- every run of requests for one file ---

  /** The requests a sender makes to upload this content as the file id, in any order and number. */
  predicate Serves(id: FileId, content: seq<byte>, m: Msg) {
    || (m.cmd == NB_SEND_FILE && m.data == Named(id))
    || (m.cmd == NB_DATA && m.arg + |m.data| <= |content| && m.data == content[m.arg..m.arg + |m.data|])
    || (m.cmd != NB_SEND_FILE && m.cmd != NB_DATA)
  }

  /** The buffer of id holds a prefix of the content up to its write pointer. */
  predicate Holds(id: FileId, content: seq<byte>, t: TargetState) {
    var f := t.files[id];
    && f.offset <= |f.data| && f.offset <= |content| && f.data[..f.offset] == content[..f.offset]
    && (t.item == None || t.item == Some(id))
  }

  function After(t: TargetState, ms: seq<Msg>): TargetState
    decreases |ms|
  {
    if ms == [] then t else After(Handle(t, ms[0]).0, ms[1..])
  }

  lemma ServeOpen(id: FileId, content: seq<byte>, t: TargetState, m: Msg)
    requires Holds(id, content, t) && m.cmd == NB_SEND_FILE && m.data == Named(id)
    ensures Holds(id, content, Handle(t, m).0)
    ensures forall other: FileId :: other != id ==> Handle(t, m).0.files[other] == t.files[other]
  {
    NamedOpens(id);
    if Resend(t, m) {
      Answers(t, m);
    } else {
      OpenAnswer(t, m);
      assert Handle(t, m).0.files[id].data[..0] == content[..0];
    }
  }

  lemma ServeBlock(id: FileId, content: seq<byte>, t: TargetState, m: Msg)
    requires Holds(id, content, t) && m.cmd == NB_DATA && Serves(id, content, m)
    ensures Holds(id, content, Handle(t, m).0)
    ensures forall other: FileId :: other != id ==> Handle(t, m).0.files[other] == t.files[other]
  {
    var u := Handle(t, m).0;
    if Accepts(t, m) {
      BlockAnswer(t, m);
      var f, g := t.files[id], u.files[id];
      assert g.data[..g.offset] == g.data[..m.arg] + g.data[m.arg..g.offset];
      assert content[..g.offset] == content[..m.arg] + content[m.arg..g.offset];
    } else {
      HandleDataFrame(t, m, Kernel);
      HandleDataFrame(t, m, Ramdisk);
      HandleDataFrame(t, m, Cmdline);
    }
  }

  lemma ServeStep(id: FileId, content: seq<byte>, t: TargetState, m: Msg)
    requires Holds(id, content, t) && Serves(id, content, m)
    ensures Holds(id, content, Handle(t, m).0)
    ensures forall other: FileId :: other != id ==> Handle(t, m).0.files[other] == t.files[other]
  {
    if m.cmd == NB_SEND_FILE {
      ServeOpen(id, content, t, m);
    } else if m.cmd == NB_DATA {
      ServeBlock(id, content, t, m);
    } else {
      HandleOtherFrame(t, m, Kernel);
      HandleOtherFrame(t, m, Ramdisk);
      HandleOtherFrame(t, m, Cmdline);
    }
  }

  /**
   * For each of the three files and every run of requests for it, repeated and reordered at will:
   * its buffer holds a prefix of the content, and the other two buffers are untouched.
   */
  lemma {:induction false} EveryUpload(id: FileId, content: seq<byte>, t: TargetState, ms: seq<Msg>)
    requires Holds(id, content, t) && forall i :: 0 <= i < |ms| ==> Serves(id, content, ms[i])
    ensures Holds(id, content, After(t, ms))
    ensures forall other: FileId :: other != id ==> After(t, ms).files[other] == t.files[other]
    decreases |ms|
  {
    if ms != [] {
      ServeStep(id, content, t, ms[0]);
      EveryUpload(id, content, Handle(t, ms[0]).0, ms[1..]);
    }
  }

  // --- the complete upload ---

  function Flat(blocks: seq<seq<byte>>): seq<byte> {
    if blocks == [] then [] else blocks[0] + Flat(blocks[1..])
  }

  /** The blocks from offset at on, with consecutive cookies. */
  function BlockMsgs(blocks: seq<seq<byte>>, at: nat, cookie: nat): seq<Msg>
    requires at + |Flat(blocks)| < TWO32 && cookie + |blocks| < TWO32
  {
    if blocks == [] then []
    else [Msg(NB_MAGIC, cookie, NB_DATA, at, blocks[0])] + BlockMsgs(blocks[1..], at + |blocks[0]|, cookie + 1)
  }

  /** Opening the file by its name, then all its blocks. */
  function UploadMsgs(id: FileId, blocks: seq<seq<byte>>, cookie: nat): seq<Msg>
    requires |Flat(blocks)| < TWO32 && cookie + 1 + |blocks| < TWO32
  {
    [Msg(NB_MAGIC, cookie, NB_SEND_FILE, 0, Named(id))] + BlockMsgs(blocks, 0, cookie + 1)
  }

  /** id is open and its buffer holds the content; data is what the buffer held before. */
  predicate Received(id: FileId, content: seq<byte>, data: seq<byte>, t: TargetState) {
    var f := t.files[id];
    && t.item == Some(id) && f.offset == |content| <= |f.data| == |data|
    && f.data == content + data[|content|..]
  }

  lemma {:induction false} BlocksStored(id: FileId, done: seq<byte>, data: seq<byte>, t: TargetState,
                                        blocks: seq<seq<byte>>, cookie: nat)
    requires |done| + |Flat(blocks)| < TWO32 && cookie + |blocks| < TWO32
    requires Received(id, done, data, t) && t.lastCookie < cookie && |done| + |Flat(blocks)| <= |data|
    ensures var u := After(t, BlockMsgs(blocks, |done|, cookie));
            && Received(id, done + Flat(blocks), data, u)
            && forall other: FileId :: other != id ==> u.files[other] == t.files[other]
    decreases |blocks|
  {
    if blocks == [] {
      assert done + Flat(blocks) == done;
    } else {
      var ms := BlockMsgs(blocks, |done|, cookie);
      var u := BlockStored(id, done, data, t, blocks[0], cookie);
      assert ms[0] == Msg(NB_MAGIC, cookie, NB_DATA, |done|, blocks[0]);
      assert ms[1..] == BlockMsgs(blocks[1..], |done + blocks[0]|, cookie + 1);
      BlocksStored(id, done + blocks[0], data, u, blocks[1..], cookie + 1);
      Assoc(done, blocks[0], Flat(blocks[1..]));
    }
  }

  lemma BlockStored(id: FileId, done: seq<byte>, data: seq<byte>, t: TargetState, block: seq<byte>, cookie: uint32)
    returns (u: TargetState)
    requires |done| + |block| < TWO32 && |done| + |block| <= |data|
    requires Received(id, done, data, t) && t.lastCookie < cookie
    ensures u == Handle(t, Msg(NB_MAGIC, cookie, NB_DATA, |done|, block)).0
    ensures Received(id, done + block, data, u) && u.lastCookie == cookie
    ensures forall other: FileId :: other != id ==> u.files[other] == t.files[other]
  {
    var m := Msg(NB_MAGIC, cookie, NB_DATA, |done|, block);
    u := Handle(t, m).0;
    BlockAnswer(t, m);
    var f, g := t.files[id], u.files[id];
    assert g.data == g.data[..m.arg] + g.data[m.arg..g.offset] + g.data[g.offset..];
    assert f.data[..m.arg] == done && f.data[g.offset..] == data[g.offset..];
  }

  /**
   * The complete upload: for each of the three files, whatever the target did before, after the
   * opening request and the blocks in order its buffer starts with exactly the content, the rest
   * of it and the other two buffers are as they were, and the write pointer is behind the content.
   */
  lemma UploadStores(id: FileId, t: TargetState, blocks: seq<seq<byte>>, cookie: nat)
    requires |Flat(blocks)| < TWO32 && cookie + 1 + |blocks| < TWO32 && |Flat(blocks)| <= |t.files[id].data|
    ensures var u := After(t, UploadMsgs(id, blocks, cookie));
            && u.item == Some(id) && u.files[id].offset == |Flat(blocks)|
            && u.files[id].data == Flat(blocks) + t.files[id].data[|Flat(blocks)|..]
            && forall other: FileId :: other != id ==> u.files[other] == t.files[other]
  {
    var ms := UploadMsgs(id, blocks, cookie);
    var u := Opened(id, t, cookie);
    assert ms[0] == Msg(NB_MAGIC, cookie, NB_SEND_FILE, 0, Named(id)) && ms[1..] == BlockMsgs(blocks, 0, cookie + 1);
    BlocksStored(id, [], t.files[id].data, u, blocks, cookie + 1);
    assert [] + Flat(blocks) == Flat(blocks);
  }

  lemma Opened(id: FileId, t: TargetState, cookie: uint32) returns (u: TargetState)
    ensures u == Handle(t, Msg(NB_MAGIC, cookie, NB_SEND_FILE, 0, Named(id))).0
    ensures Received(id, [], t.files[id].data, u) && u.lastCookie == cookie
    ensures forall other: FileId :: other != id ==> u.files[other] == t.files[other]
  {
    var m := Msg(NB_MAGIC, cookie, NB_SEND_FILE, 0, Named(id));
    u := Handle(t, m).0;
    NamedOpens(id);
    OpenAnswer(t, m);
    assert [] + t.files[id].data[0..] == t.files[id].data;
  }
}
