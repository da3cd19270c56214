/** src/netboot.c as it stands: static variables and file buffers updated in place per message. */
module NetbootTarget {
  import opened Bytes
  import opened NbMessage
  import opened Target
  import Upload

  /** struct nbfile: a fixed buffer and its write pointer. */
  class NbBuffer {
    const data: array<byte>
    var offset: nat

    constructor (size: nat)
      ensures fresh(this) && fresh(data) && data.Length == size && offset == 0
    {
      data := new byte[size](_ => 0);
      offset := 0;
    }

    function Contents(): NbFile
      reads this, data
    {
      NbFile(data[..], offset)
    }

    /** memcpy(item->data + item->offset, msg->data, len); item->offset += len */
    method Append(buf: array<byte>, off: nat, n: nat)
      requires off + n <= buf.Length && offset + n <= data.Length && buf != data
      modifies this, data
      ensures Contents() == Store(old(Contents()), buf[off..off + n])
    {
      var i := 0;
      while i < n
        invariant 0 <= i <= n && offset == old(offset)
        invariant forall k :: 0 <= k < data.Length ==>
          data[k] == if offset <= k < offset + i then buf[off + k - offset] else old(data[k])
        invariant buf[..] == old(buf[..])
      {
        data[offset + i] := buf[off + i];
        i := i + 1;
      }
      assert data[..] == Splice(old(data[..]), offset, buf[off..off + n]);
      offset := offset + n;
    }
  }

  lemma FilesOfUpdate(k: NbFile, r: NbFile, c: NbFile, x: NbFile)
    ensures FilesOf(k, r, c)[Kernel := x] == FilesOf(x, r, c)
    ensures FilesOf(k, r, c)[Ramdisk := x] == FilesOf(k, x, c)
    ensures FilesOf(k, r, c)[Cmdline := x] == FilesOf(k, r, x)
  {
  }

  /** No NUL but possibly the last byte. */
  predicate InnerNonZero(lit: seq<byte>) {
    forall i :: 0 <= i < |lit| - 1 ==> lit[i] != 0
  }

  /**
   * Comparing against the receive buffer, past the end of a short name, gives the same
   * verdict as comparing against the NUL-terminated name alone.
   */
  lemma CompareStopsAtName(buf: seq<byte>, n: nat, lit: seq<byte>)
    requires 1 <= n <= |buf| && |lit| <= |buf| && buf[n - 1] == 0 && InnerNonZero(lit)
    ensures buf[..|lit|] == lit <==> HasPrefix(buf[..n], lit)
  {
    if |lit| <= n {
      assert buf[..n][..|lit|] == buf[..|lit|];
    } else {
      assert buf[..|lit|][n - 1] == 0 && lit[n - 1] != 0;
    }
  }

  /** msg->data[len - 1] = 0, and every other byte outside ' '..127 becomes a dot. */
  method CleanName(buf: array<byte>, off: nat, n: nat)
    requires 1 <= n && off + n <= buf.Length
    modifies buf
    ensures buf[off..off + n] == Sanitize(old(buf[off..off + n]))
  {
    buf[off + n - 1] := 0;
    var i := 0;
    while i < n - 1
      invariant 0 <= i <= n - 1
      invariant buf[off + n - 1] == 0
      invariant forall k :: off <= k < off + n - 1 ==>
        buf[k] == if k < off + i then CleanByte(old(buf[k])) else old(buf[k])
    {
      if buf[off + i] < 32 || buf[off + i] > 127 {
        buf[off + i] := 46;
      }
      i := i + 1;
    }
  }

  class Netboot {
    var lastCookie: uint32
    var lastCmd: uint32
    var lastArg: uint32
    var lastAckCmd: uint32
    var lastAckArg: uint32
    var bootNow: bool
    var active: bool
    var item: NbBuffer?
    var fastCount: nat
    var online: bool
    const kernel: NbBuffer
    const ramdisk: NbBuffer
    const cmdline: NbBuffer

    constructor (k: NbBuffer, r: NbBuffer, c: NbBuffer)
      requires k != r && k != c && r != c && k.data != r.data && k.data != c.data && r.data != c.data
      ensures Valid() && kernel == k && ramdisk == r && cmdline == c && !online && fastCount == 0
      ensures State() == TargetState(0, 0, 0, 0, 0, false, false, None,
                                     FilesOf(k.Contents(), r.Contents(), c.Contents()))
    {
      kernel, ramdisk, cmdline := k, r, c;
      lastCookie, lastCmd, lastArg, lastAckCmd, lastAckArg := 0, 0, 0, 0, 0;
      bootNow, active, item := false, false, null;
      fastCount, online := 0, false;
    }

    ghost predicate Valid()
      reads this
    {
      && kernel != ramdisk && kernel != cmdline && ramdisk != cmdline
      && kernel.data != ramdisk.data && kernel.data != cmdline.data && ramdisk.data != cmdline.data
      && (item == null || item == kernel || item == ramdisk || item == cmdline)
    }

    function IdOf(b: NbBuffer?): Option<FileId>
      reads this
    {
      if b == null then None
      else if b == kernel then Some(Kernel)
      else if b == ramdisk then Some(Ramdisk)
      else Some(Cmdline)
    }

    ghost function State(): TargetState
      reads this, kernel, ramdisk, cmdline, kernel.data, ramdisk.data, cmdline.data
    {
      TargetState(lastCookie, lastCmd, lastArg, lastAckCmd, lastAckArg, bootNow, active, IdOf(item),
                  FilesOf(kernel.Contents(), ramdisk.Contents(), cmdline.Contents()))
    }

    /** netboot_get_buffer: memcmp on the receive buffer itself. */
    method GetBuffer(buf: array<byte>, off: nat, ghost n: nat) returns (b: NbBuffer?)
      requires Valid() && 1 <= n && off + n <= buf.Length && off + 11 <= buf.Length
      requires buf[off + n - 1] == 0
      ensures b == null || b == kernel || b == ramdisk || b == cmdline
      ensures IdOf(b) == Lookup(buf[off..off + n])
      ensures b == kernel <==> buf[off..off + 11] == Upload.Ascii("kernel.bin") + [0]
      ensures b == ramdisk <==> buf[off..off + 11] == Upload.Ascii("ramdisk.bin")
      ensures b == cmdline <==> buf[off..off + 7] == Upload.Ascii("cmdline")
    {
      Upload.NameBytes();
      assert buf[off..off + 11][0] == buf[off..off + 7][0] == buf[off];
      assert KERNEL_NAME[0] == 107 && RAMDISK_NAME[0] == 114 && CMDLINE_NAME[0] == 99;
      ghost var s := buf[off..];
      assert s[..n] == buf[off..off + n];
      CompareStopsAtName(s, n, KERNEL_NAME);
      CompareStopsAtName(s, n, RAMDISK_NAME);
      CompareStopsAtName(s, n, CMDLINE_NAME);
      assert s[..11] == buf[off..off + 11] && s[..7] == buf[off..off + 7];
      if buf[off..off + 11] == KERNEL_NAME {
        b := kernel;
      } else if buf[off..off + 11] == RAMDISK_NAME {
        b := ramdisk;
      } else if buf[off..off + 7] == CMDLINE_NAME {
        b := cmdline;
      } else {
        b := null;
      }
    }

    /** The file a request names, after its name was cleaned in place. */
    method FindItem(buf: array<byte>, off: nat, n: nat) returns (b: NbBuffer?)
      requires Valid() && 1 <= n && off + n <= buf.Length && off + 11 <= buf.Length
      modifies buf
      ensures b == null || b == kernel || b == ramdisk || b == cmdline
      ensures IdOf(b) == Lookup(Sanitize(old(buf[off..off + n])))
      ensures var d := old(buf[off..off + n]);
              && (b == kernel <==> Upload.Spells(d, "kernel.bin") && n == 11)
              && (b == ramdisk <==> Upload.Spells(d, "ramdisk.bin"))
              && (b == cmdline <==> Upload.Spells(d, "cmdline"))
    {
      Upload.OpensExactly(buf[off..off + n]);
      CleanName(buf, off, n);
      assert buf[off..off + n][n - 1] == 0;
      b := GetBuffer(buf, off, n);
    }

    /** case NB_SEND_FILE */
    method SendFile(buf: array<byte>, off: nat, n: nat) returns (ackCmd: uint32)
      requires Valid() && 1 <= n && off + n <= buf.Length && off + 11 <= buf.Length
      requires buf != kernel.data && buf != ramdisk.data && buf != cmdline.data
      modifies this`item, kernel`offset, ramdisk`offset, cmdline`offset, buf
      ensures Valid()
      ensures var id := Lookup(Sanitize(old(buf[off..off + n])));
              && ackCmd == (if id.Some? then NB_ACK else NB_ERROR_BAD_FILE)
              && State() == if id.Some? then Opened(old(State()), id.value) else old(State()).(item := None)
      ensures var d := old(buf[off..off + n]);
              && (item == kernel <==> Upload.Spells(d, "kernel.bin") && n == 11)
              && (item == ramdisk <==> Upload.Spells(d, "ramdisk.bin"))
              && (item == cmdline <==> Upload.Spells(d, "cmdline"))
    {
      var b := FindItem(buf, off, n);
      if b != null {
        OpenItem(b);
        ackCmd := NB_ACK;
      } else {
        item := null;
        ackCmd := NB_ERROR_BAD_FILE;
      }
    }

    /** item = b; item->offset = 0 */
    method OpenItem(b: NbBuffer)
      requires Valid() && (b == kernel || b == ramdisk || b == cmdline)
      modifies this`item, b`offset
      ensures Valid() && item == b && State() == Opened(old(State()), IdOf(b).value)
    {
      FilesOfUpdate(kernel.Contents(), ramdisk.Contents(), cmdline.Contents(), b.Contents().(offset := 0));
      item := b;
      b.offset := 0;
    }

    static function Opened(t: TargetState, id: FileId): TargetState {
      t.(item := Some(id), files := t.files[id := t.files[id].(offset := 0)])
    }

    /** case NB_DATA; ok is false when the message is dropped without an answer. */
    method Data(arg: uint32, buf: array<byte>, off: nat, n: nat, ghost m: Msg) returns (ok: bool, ackCmd: uint32)
      requires Valid() && off + n <= buf.Length
      requires m.cmd == NB_DATA && m.arg == arg && m.data == buf[off..off + n]
      requires buf != kernel.data && buf != ramdisk.data && buf != cmdline.data
      modifies kernel, ramdisk, cmdline, kernel.data, ramdisk.data, cmdline.data
      ensures Valid()
      ensures Dispatch(old(State()), m) == if ok then Answer(State(), ackCmd, arg) else Silent
      ensures !ok ==> State() == old(State())
    {
      ok, ackCmd := false, NB_ACK;
      if item == null || arg != item.offset {
        return;
      }
      ok := true;
      if item.offset + n > item.data.Length {
        ackCmd := NB_ERROR_TOO_LARGE;
      } else {
        FilesOfUpdate(kernel.Contents(), ramdisk.Contents(), cmdline.Contents(),
                      Store(item.Contents(), buf[off..off + n]));
        item.Append(buf, off, n);
      }
    }

    /** The switch of udp6_recv; ok is false where the source returns without an answer. */
    method Switch(cmd: uint32, arg: uint32, buf: array<byte>, off: nat, n: nat, ghost m: Msg)
      returns (ok: bool, ackCmd: uint32, ackArg: uint32)
      requires Valid() && off + n <= buf.Length && off + 11 <= buf.Length
      requires buf != kernel.data && buf != ramdisk.data && buf != cmdline.data
      requires m.cmd == cmd && m.arg == arg && m.data == buf[off..off + n]
      modifies this`item, this`bootNow, kernel, ramdisk, cmdline, kernel.data, ramdisk.data, cmdline.data, buf
      ensures Valid()
      ensures Dispatch(old(State()), m) == if ok then Answer(State(), ackCmd, ackArg) else Silent
      ensures !ok ==> State() == old(State())
    {
      ok, ackCmd, ackArg := true, NB_ACK, 0;
      if cmd == NB_COMMAND {
        if n == 0 {
          ok := false;
        } else {
          buf[off + n - 1] := 0;
        }
      } else if cmd == NB_SEND_FILE {
        if n == 0 {
          ok := false;
        } else {
          ackCmd := SendFile(buf, off, n);
        }
      } else if cmd == NB_DATA {
        ackArg := arg;
        ok, ackCmd := Data(arg, buf, off, n, m);
      } else if cmd == NB_BOOT {
        bootNow := true;
      } else {
        ackCmd := NB_ERROR_BAD_CMD;
      }
    }

    /** (last_cookie == cookie) && (last_cmd == cmd) && (last_arg = arg), assignment included. */
    method ResendGuard(cookie: uint32, cmd: uint32, arg: uint32) returns (resend: bool)
      modifies this`lastArg
      ensures resend <==> lastCookie == cookie && lastCmd == cmd && arg != 0
      ensures State() == if lastCookie == cookie && lastCmd == cmd then old(State()).(lastArg := arg)
                         else old(State())
    {
      resend := false;
      if lastCookie == cookie && lastCmd == cmd {
        lastArg := arg;
        resend := lastArg != 0;
      }
    }

    method Remember(cookie: uint32, cmd: uint32, arg: uint32, ackCmd: uint32, ackArg: uint32)
      modifies this`lastCookie, this`lastCmd, this`lastArg, this`lastAckCmd, this`lastAckArg, this`active
      ensures State() == old(State()).(lastCookie := cookie, lastCmd := cmd, lastArg := arg,
                                       lastAckCmd := ackCmd, lastAckArg := ackArg, active := true)
    {
      lastCookie, lastCmd, lastArg := cookie, cmd, arg;
      lastAckCmd, lastAckArg := ackCmd, ackArg;
      active := true;
    }

    /**
     * udp6_recv: the datagram is buf[off..off + len], inside a receive buffer large enough
     * for the name comparisons. The answer goes back to the sender.
     */
    method Udp6Recv(buf: array<byte>, off: nat, len: nat, dport: uint16) returns (reply: Option<Msg>)
      requires Valid() && off + len <= buf.Length && off + HEADER_LEN + 11 <= buf.Length
      requires buf != kernel.data && buf != ramdisk.data && buf != cmdline.data
      modifies this`item, this`bootNow, this`lastCookie, this`lastCmd, this`lastArg,
               this`lastAckCmd, this`lastAckArg, this`active,
               kernel, ramdisk, cmdline, kernel.data, ramdisk.data, cmdline.data, buf
      ensures Valid()
      ensures var d := Parse(old(buf[off..off + len]));
              (State(), reply) == if dport == 33330 && d.Full? then Handle(old(State()), d.msg)
                                  else (old(State()), None)
    {
      reply := None;
      if dport != NB_SERVER_PORT || len < HEADER_LEN {
        return;
      }
      var dgram := buf[off..off + len];
      var cookie, cmd, arg := Word(dgram, 4), Word(dgram, 8), Word(dgram, 12);
      ghost var m := Parse(dgram).msg;
      assert m.data == buf[off + HEADER_LEN..off + len];
      var resend := ResendGuard(cookie, cmd, arg);
      if resend {
        active := true;
        reply := Some(Msg(NB_MAGIC, lastCookie, lastAckCmd, lastAckArg, []));
        return;
      }
      var ok, ackCmd, ackArg := Switch(cmd, arg, buf, off + HEADER_LEN, len - HEADER_LEN, m);
      if ok {
        Remember(cookie, cmd, arg, ackCmd, ackArg);
        reply := Some(Msg(NB_MAGIC, cookie, ackCmd, ackArg, []));
      }
    }

    /**
     * netboot_poll: ifActive and expired are the answers of the interface and its timer; when
     * got is set, netifc_poll delivers the datagram buf[off..off + len]. The result says to
     * boot exactly when a boot request is pending or that datagram is one, and then forgets it.
     */
    method Poll(ifActive: bool, expired: bool, got: bool, buf: array<byte>, off: nat, len: nat, dport: uint16)
      returns (boot: bool, reply: Option<Msg>, adverts: nat)
      requires Valid() && off + len <= buf.Length && off + HEADER_LEN + 11 <= buf.Length
      requires buf != kernel.data && buf != ramdisk.data && buf != cmdline.data
      modifies this, kernel, ramdisk, cmdline, kernel.data, ramdisk.data, cmdline.data, buf
      ensures Valid() && online == ifActive
      ensures !ifActive ==> !boot && State() == old(State()) && reply == None && adverts == 0
      ensures ifActive ==>
                var t := if expired then old(State()).(active := false) else old(State());
                var d := Parse(old(buf[off..off + len]));
                var (u, r) := if got && dport == 33330 && d.Full? then Handle(t, d.msg) else (t, None);
                && State() == u.(bootNow := false) && boot == u.bootNow && reply == r
                && adverts == (if old(online) then 0 else 1) + (if expired && !old(active) then 1 else 0)
      ensures ifActive ==>
                var n := if old(online) then old(fastCount) else 20;
                fastCount == if expired && n > 0 then n - 1 else n
    {
      boot, reply, adverts := false, None, 0;
      if !ifActive {
        online := false;
        return;
      }
      adverts := Tick(expired);
      if got {
        reply := Udp6Recv(buf, off, len, dport);
      }
      boot := TakeBoot();
    }

    method TakeBoot() returns (boot: bool)
      modifies this`bootNow
      ensures boot == old(State()).bootNow && State() == old(State()).(bootNow := false)
    {
      boot := bootNow;
      bootNow := false;
    }

    /** Coming online and the advertising timer; no advertisement while a transfer is active. */
    method Tick(expired: bool) returns (adverts: nat)
      modifies this`online, this`fastCount, this`active
      ensures online
      ensures State() == if expired then old(State()).(active := false) else old(State())
      ensures adverts == (if old(online) then 0 else 1) + (if expired && !old(active) then 1 else 0)
      ensures var n := if old(online) then old(fastCount) else 20;
              fastCount == if expired && n > 0 then n - 1 else n
    {
      adverts := 0;
      if !online {
        online, fastCount := true, 20;
        adverts := 1;
      }
      if expired {
        if fastCount != 0 {
          fastCount := fastCount - 1;
        }
        if active {
          active := false;
        } else {
          adverts := adverts + 1;
        }
      }
    }
  }
}
