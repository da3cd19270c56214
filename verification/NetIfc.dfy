/** src/netifc.c: the intrusive free list itself, popped and pushed by changing `next` fields. */
module NetIfc {
  import opened Bytes
  import opened BufferPool

  const ETH_BUFFER_MAGIC: uint64 := 0x424201020304A7A7

  class EthBuffer {
    const addr: nat
    const data: array<byte>
    var magic: uint64
    var next: EthBuffer?

    constructor (a: nat)
      ensures addr == a && data.Length == ETH_BUFFER_SIZE && fresh(data) && magic == 0 && next == null
    {
      addr := a;
      data := new byte[ETH_BUFFER_SIZE](_ => 0);
      magic, next := 0, null;
    }
  }

  class NetIfc {
    /** The buffers of the 8 pages from base on, one per 2048-byte slot. */
    const base: nat
    const slots: seq<EthBuffer>
    var ethBuffers: EthBuffer?
    ghost var free: seq<EthBuffer>
    ghost var nic: set<nat>

    ghost predicate Layout()
    {
      && base % SLOT == 0 && |slots| == NUM_BUFFERS
      && (forall i :: 0 <= i < |slots| ==> slots[i].addr == base + SLOT * i && slots[i].data.Length == ETH_BUFFER_SIZE)
      && (forall i, j :: 0 <= i < j < |slots| ==> slots[i].data != slots[j].data)
    }

    /** The linked list from ethBuffers on is l: acyclic, without duplicates. */
    ghost predicate Linked(l: seq<EthBuffer>)
      reads this, slots
    {
      && (forall i :: 0 <= i < |l| ==> l[i] in slots && l[i].magic == ETH_BUFFER_MAGIC)
      && (forall i, j :: 0 <= i < j < |l| ==> l[i] != l[j])
      && ethBuffers == (if l == [] then null else l[0])
      && (forall i, j :: 0 <= i < |l| && j == i + 1 && j < |l| ==> l[i].next == l[j])
      && (l != [] ==> l[|l| - 1].next == null)
    }

    ghost predicate Valid()
      reads this, slots
    {
      Linked(free)
    }

    ghost function View(): Pool
      reads this
    {
      Pool(Addrs(free), nic)
    }

    static ghost function Addrs(bs: seq<EthBuffer>): (r: seq<nat>)
      ensures |r| == |bs| && forall i :: 0 <= i < |bs| ==> r[i] == bs[i].addr
    {
      seq(|bs|, i requires 0 <= i < |bs| => bs[i].addr)
    }

    predicate Inside(ptr: nat) {
      base <= ptr < base + SLOT * NUM_BUFFERS
    }

    /** The buffer whose header is at the masked pointer. */
    function At(ptr: nat): (b: EthBuffer)
      requires Layout() && Inside(ptr)
      ensures b in slots && b.addr == Mask(ptr)
    {
      slots[(Mask(ptr) - base) / SLOT]
    }

    method EthGetBuffer(sz: nat) returns (p: Option<EthBuffer>)
      requires Layout() && Valid()
      modifies this`ethBuffers, this`free, set b | b in slots :: b`next
      ensures Valid()
      ensures p.None? <==> sz > 1516 || old(free) == []
      ensures p.None? ==> free == old(free)
      ensures p.Some? ==> p.value == old(free)[0] && free == old(free)[1..]
    {
      if sz > ETH_BUFFER_SIZE {
        return None;
      }
      if ethBuffers == null {
        return None;
      }
      var buf := ethBuffers;
      assert |free| > 1 ==> free[0].next == free[1];
      ethBuffers := buf.next;
      buf.next := null;
      free := free[1..];
      return Some(buf);
    }

    /**
     * fatal stands for the endless loop the source enters when the header is damaged. A buffer
     * that is on the list already is pushed all the same: then the links go round in a circle.
     */
    method EthPutBuffer(ptr: nat) returns (fatal: bool)
      requires Layout() && Valid() && Inside(ptr)
      modifies this`ethBuffers, this`free, At(ptr)`next
      ensures fatal <==> At(ptr).magic != ETH_BUFFER_MAGIC
      ensures free == if fatal then old(free) else [At(ptr)] + old(free)
      ensures Valid() <==> fatal || At(ptr) !in old(free)
      ensures !Valid() ==> forall l: seq<EthBuffer> :: !Linked(l)
    {
      var buf := At(ptr);
      if buf.magic != ETH_BUFFER_MAGIC {
        return true;
      }
      buf.next := ethBuffers;
      ethBuffers := buf;
      free := [buf] + free;
      if buf in old(free) {
        CircleIsNoList(buf, old(free));
      }
      return false;
    }

    /** Following the links of a list that was closed to a circle leads back to its head. */
    lemma {:induction false} LinksFollow(l: seq<EthBuffer>, f: seq<EthBuffer>, k: nat)
      requires Linked(l) && k < |f| && ethBuffers != null && ethBuffers.next == f[0]
      requires forall i, j :: 0 <= i < k && j == i + 1 ==> f[i].next == f[j]
      ensures k + 1 < |l| && l[k + 1] == f[k]
    {
      if k > 0 {
        LinksFollow(l, f, k - 1);
      }
      assert l[k] == if k == 0 then ethBuffers else f[k - 1];
      assert l[k].next == f[k];
      assert k + 1 < |l| ==> l[k].next == l[k + 1];
    }

    lemma CircleIsNoList(buf: EthBuffer, f: seq<EthBuffer>)
      requires ethBuffers == buf && buf in f && buf.next == f[0]
      requires forall i, j :: 0 <= i < |f| && j == i + 1 && j < |f| && f[i] != buf ==> f[i].next == f[j]
      requires forall i, j :: 0 <= i < j < |f| ==> f[i] != f[j]
      ensures forall l: seq<EthBuffer> :: !Linked(l)
    {
      var k :| 0 <= k < |f| && f[k] == buf;
      forall l: seq<EthBuffer> ensures !Linked(l) {
        if Linked(l) {
          LinksFollow(l, f, k);
        }
      }
    }

    ghost function AllAddrs(): set<nat>
    {
      set i | 0 <= i < |slots| :: slots[i].addr
    }

    /** Between top-level calls: every header intact and every buffer free or with the NIC. */
    ghost predicate Whole()
      reads this, slots
    {
      && Valid()
      && (forall i :: 0 <= i < |slots| ==> slots[i].magic == ETH_BUFFER_MAGIC)
      && Partition(AllAddrs(), View())
    }

    /** The memory of the pool, as AllocatePages returns it. */
    static method AllocSlots(start: nat) returns (bs: seq<EthBuffer>)
      ensures |bs| == NUM_BUFFERS && fresh(bs)
      ensures forall i :: 0 <= i < |bs| ==> bs[i].addr == start + SLOT * i && bs[i].data.Length == ETH_BUFFER_SIZE
      ensures forall i, j :: 0 <= i < j < |bs| ==> bs[i].data != bs[j].data
    {
      bs := [];
      while |bs| < NUM_BUFFERS
        invariant |bs| <= NUM_BUFFERS && fresh(bs)
        invariant forall i :: 0 <= i < |bs| ==> fresh(bs[i].data)
        invariant forall i :: 0 <= i < |bs| ==> bs[i].addr == start + SLOT * i && bs[i].data.Length == ETH_BUFFER_SIZE
        invariant forall i, j :: 0 <= i < j < |bs| ==> bs[i].data != bs[j].data
      {
        var b := new EthBuffer(start + SLOT * |bs|);
        bs := bs + [b];
      }
    }

    /** The pool part of netifc_open. */
    constructor (start: nat)
      requires start % 4096 == 0
      ensures Layout() && Whole() && base == start && nic == {} && fresh(slots)
      ensures |free| == 16
    {
      var bs := AllocSlots(start);
      base, slots, ethBuffers := start, bs, null;
      free, nic := [], {};
      new;
      Fill();
      FullPartition();
    }

    /** The set-up loop: stamp each slot and put it on the list. */
    method Fill()
      requires Layout() && Valid() && free == []
      modifies this`ethBuffers, this`free, slots
      ensures Valid() && |free| == 16
      ensures forall i :: 0 <= i < 16 ==> free[i] == slots[15 - i]
      ensures forall i :: 0 <= i < 16 ==> slots[i].magic == ETH_BUFFER_MAGIC
    {
      var r := 0;
      var ptr := base;
      while r < NUM_BUFFERS
        invariant r <= NUM_BUFFERS && ptr == base + SLOT * r
        invariant Valid() && |free| == r
        invariant forall i :: 0 <= i < r ==> free[i] == slots[r - 1 - i]
        invariant forall i :: 0 <= i < r ==> slots[i].magic == ETH_BUFFER_MAGIC
      {
        StampNext(ptr, r);
        ptr := ptr + SLOT;
        r := r + 1;
      }
    }

    method StampNext(ptr: nat, r: nat)
      requires r < NUM_BUFFERS && ptr == base + SLOT * r && Layout() && Valid() && |free| == r
      requires forall i :: 0 <= i < r ==> free[i] == slots[r - 1 - i]
      modifies this`ethBuffers, this`free, slots
      ensures Valid() && free == [slots[r]] + old(free)
      ensures slots[r].magic == ETH_BUFFER_MAGIC
      ensures forall i :: 0 <= i < |slots| && i != r ==> slots[i].magic == old(slots[i].magic)
    {
      assert At(ptr) == slots[r];
      slots[r].magic := ETH_BUFFER_MAGIC;
      var fatal := EthPutBuffer(ptr);
    }

    lemma FullPartition()
      requires Layout() && Valid() && nic == {} && |free| == NUM_BUFFERS
      requires forall i :: 0 <= i < NUM_BUFFERS ==> free[i] == slots[NUM_BUFFERS - 1 - i]
      ensures Partition(AllAddrs(), View())
    {
      var f := View().free;
      forall b | b in AllAddrs() ensures b in f {
        var i :| 0 <= i < |slots| && slots[i].addr == b;
        assert f[NUM_BUFFERS - 1 - i] == b;
      }
      forall b | b in f ensures b in AllAddrs() {
        var i :| 0 <= i < |f| && f[i] == b;
        assert slots[NUM_BUFFERS - 1 - i].addr == b;
      }
    }

    /** eth_send: txOk is the outcome of the firmware's Transmit. */
    method EthSend(ptr: nat, txOk: bool) returns (r: int, fatal: bool)
      requires Layout() && Valid() && Inside(ptr)
      modifies this`ethBuffers, this`free, this`nic, At(ptr)`next
      ensures r == (if txOk then 0 else -1)
      ensures Valid() <==> txOk || fatal || At(ptr) !in old(free)
      ensures fatal <==> !txOk && At(ptr).magic != ETH_BUFFER_MAGIC
      ensures nic == if txOk then old(nic) + {Mask(ptr)} else old(nic)
      ensures free == if txOk || fatal then old(free) else [At(ptr)] + old(free)
    {
      if txOk {
        nic := nic + {Mask(ptr)};
        return 0, false;
      }
      fatal := EthPutBuffer(ptr);
      r := -1;
    }

    /** eth_put_buffer on an intact buffer that is not on the list. */
    method Reclaim(b: EthBuffer, ptr: nat)
      requires Layout() && Valid() && Inside(ptr) && b == At(ptr) && b !in free && b.magic == ETH_BUFFER_MAGIC
      modifies this`ethBuffers, this`free, b`next
      ensures Valid() && free == [b] + old(free)
    {
      var fatal := EthPutBuffer(ptr);
    }

    /** The completion step of netifc_poll: the firmware may report a buffer it has finished with. */
    method PollTx(txdone: Option<nat>)
      requires Layout() && Whole()
      requires txdone.Some? ==> Allowed(View(), TxDone(txdone.value))
      modifies this`ethBuffers, this`free, this`nic, slots`next
      ensures Whole()
      ensures View() == Step(old(View()), if txdone.Some? then TxDone(txdone.value) else Nothing)
    {
      if txdone.Some? {
        var ptr := txdone.value;
        NicPointer(ptr);
        AddrsAligned();
        StepPartition(AllAddrs(), View(), TxDone(ptr));
        AddrsCons(At(ptr), free);
        Reclaim(At(ptr), ptr);
        nic := nic - {Mask(ptr)};
        assert View().free == Put(old(View()).free, ptr);
      }
    }

    lemma AddrsAligned()
      requires Layout()
      ensures Aligned(AllAddrs())
    {
    }

    lemma NicPointer(ptr: nat)
      requires Layout() && Whole() && Mask(ptr) in nic
      ensures Inside(ptr) && At(ptr) !in free && At(ptr).magic == ETH_BUFFER_MAGIC
    {
      var i :| 0 <= i < |slots| && slots[i].addr == Mask(ptr);
    }

    /** Any pointer into a buffer's slot leads back to the buffer. */
    lemma HeaderOf(b: EthBuffer, off: nat)
      requires Layout() && b in slots && off < SLOT
      ensures Inside(b.addr + off) && At(b.addr + off) == b && Mask(b.addr + off) == b.addr
    {
      var i :| 0 <= i < |slots| && slots[i] == b;
      MaskRecoversHeader(b.addr, off);
    }

    /** The stack holds b, taken from the head of pool's free list. */
    ghost predicate Holding(b: EthBuffer, pool: Pool)
      reads this, slots
    {
      && Valid() && b in slots && b !in free && Partition(AllAddrs(), pool)
      && (forall i :: 0 <= i < |slots| ==> slots[i].magic == ETH_BUFFER_MAGIC)
      && pool == Pool([b.addr] + Addrs(free), nic)
    }

    /** eth_get_buffer for a whole frame, as the send paths call it. */
    method Take() returns (b: Option<EthBuffer>)
      requires Layout() && Whole()
      modifies this`ethBuffers, this`free, slots`next
      ensures b.None? <==> old(free) == []
      ensures b.None? ==> Whole() && View() == old(View())
      ensures b.Some? ==> Holding(b.value, old(View()))
    {
      b := EthGetBuffer(ETH_BUFFER_SIZE);
      assert b.Some? ==> old(View()).free == [b.value.addr] + Addrs(free);
    }

    /** The fail paths: eth_put_buffer on the data pointer restores the very same free list. */
    method GiveBack(b: EthBuffer, ghost txOk: bool, ghost pool: Pool)
      requires Layout() && Holding(b, pool)
      modifies this`ethBuffers, this`free, slots`next
      ensures Whole() && View() == pool == Step(pool, Send(false, txOk))
    {
      HeaderOf(b, ETH_HEADER_SIZE);
      SendShape(b.addr, Addrs(free), nic);
      AddrsCons(b, free);
      Reclaim(b, b.addr + ETH_HEADER_SIZE);
      assert View() == pool;
    }

    static lemma AddrsCons(b: EthBuffer, l: seq<EthBuffer>)
      ensures Addrs([b] + l) == [b.addr] + Addrs(l)
    {
    }

    /** eth_send on a held buffer whose header is intact: the frame starts two bytes into the data. */
    method SendHeld(b: EthBuffer, txOk: bool) returns (r: int)
      requires Layout() && Valid() && b in slots && b !in free && b.magic == ETH_BUFFER_MAGIC
      modifies this`ethBuffers, this`free, this`nic, b`next
      ensures Valid() && r == (if txOk then 0 else -1)
      ensures txOk ==> free == old(free) && nic == old(nic) + {b.addr}
      ensures !txOk ==> free == [b] + old(free) && nic == old(nic)
    {
      HeaderOf(b, ETH_HEADER_SIZE + 2);
      var fatal;
      r, fatal := EthSend(b.addr + ETH_HEADER_SIZE + 2, txOk);
    }

    /** eth_send on the n-byte frame two bytes into the data area; wire is what the NIC took. */
    method HandOver(b: EthBuffer, n: nat, txOk: bool, ghost pool: Pool) returns (r: int, wire: Option<seq<byte>>)
      requires Layout() && Holding(b, pool) && 2 + n <= b.data.Length
      modifies this`ethBuffers, this`free, this`nic, slots`next
      ensures Whole() && View() == Step(pool, Send(true, txOk))
      ensures r == (if txOk then 0 else -1)
      ensures wire == if txOk then Some(old(b.data[2..2 + n])) else None
    {
      wire := if txOk then Some(b.data[2..2 + n]) else None;
      r := SendWhole(b, txOk, pool);
    }

    /** The same for the pool: it is whole again, after one step of a send. */
    method SendWhole(b: EthBuffer, txOk: bool, ghost pool: Pool) returns (r: int)
      requires Layout() && Holding(b, pool)
      modifies this`ethBuffers, this`free, this`nic, b`next
      ensures Whole() && View() == Step(pool, Send(true, txOk))
      ensures r == (if txOk then 0 else -1)
    {
      HandOverPartition(b, pool, txOk);
      AddrsCons(b, free);
      r := SendHeld(b, txOk);
      assert View() == Step(pool, Send(true, txOk));
    }

    lemma HandOverPartition(b: EthBuffer, pool: Pool, txOk: bool)
      requires Layout() && Holding(b, pool)
      ensures Partition(AllAddrs(), Step(pool, Send(true, txOk)))
      ensures Step(pool, Send(true, txOk)) == if txOk then Pool(Addrs(free), nic + {b.addr}) else pool
    {
      AddrsAligned();
      StepPartition(AllAddrs(), pool, Send(true, txOk));
      SendShape(b.addr, Addrs(free), nic);
    }
  }
}
