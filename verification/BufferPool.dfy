/** The transmit buffer pool of src/netifc.c: ownership of the 16 buffers over every run. */
module BufferPool {
  import opened Bytes

  const NUM_BUFFERS: nat := 16
  const ETH_BUFFER_SIZE: nat := 1516
  const ETH_HEADER_SIZE: nat := 16
  const SLOT: nat := 2048

  /** data & ~2047 on an address. */
  function Mask(p: nat): nat {
    p - p % SLOT
  }

  /** Masking any pointer into a buffer's slot gives its header. */
  lemma MaskRecoversHeader(b: nat, off: nat)
    requires b % 2048 == 0 && off < 2048
    ensures Mask(b + off) == b
  {
  }

  /** The free list in order, head first, and the buffers the NIC holds; by header address. */
  datatype Pool = Pool(free: seq<nat>, nic: set<nat>)

  /** One top-level call, with the outcome of the steps it depends on. */
  datatype Op =
    | Send(setupOk: bool, txOk: bool)   // udp6_send or icmp6_send
    | TxDone(ptr: nat)                  // netifc_poll reporting a sent frame
    | Nothing

  function Put(free: seq<nat>, ptr: nat): seq<nat> {
    [Mask(ptr)] + free
  }

  /**
   * The stack writes its frame two bytes into the data area, so the NIC is given, and reports
   * back, an interior pointer; the fail paths put back the data pointer itself.
   */
  function Step(p: Pool, op: Op): Pool {
    match op
    case Send(setupOk, txOk) =>
      if p.free == [] then p
      else
        var data := p.free[0] + ETH_HEADER_SIZE;
        var rest := p.free[1..];
        if !setupOk then p.(free := Put(rest, data))
        else if !txOk then p.(free := Put(rest, data + 2))
        else Pool(rest, p.nic + {p.free[0]})
    case TxDone(ptr) => Pool(Put(p.free, ptr), p.nic - {Mask(ptr)})
    case Nothing => p
  }

  /** The NIC reports a pointer into a buffer it holds: each sent buffer at most once. */
  predicate Allowed(p: Pool, op: Op) {
    op.TxDone? ==> Mask(op.ptr) in p.nic
  }

  predicate NoDup(s: seq<nat>) {
    forall i, j :: 0 <= i < j < |s| ==> s[i] != s[j]
  }

  /** Every buffer is on the free list, once, or with the NIC, and nothing else is. */
  predicate Partition(all: set<nat>, p: Pool) {
    && NoDup(p.free)
    && (forall b :: b in p.free ==> b !in p.nic && b in all)
    && (forall b :: b in all ==> b in p.free || b in p.nic)
    && p.nic <= all
  }

  predicate Aligned(all: set<nat>) {
    forall b :: b in all ==> b % SLOT == 0
  }

  lemma StepPartition(all: set<nat>, p: Pool, op: Op)
    requires Aligned(all) && Partition(all, p) && Allowed(p, op)
    ensures Partition(all, Step(p, op))
    ensures op.Send? && !(op.setupOk && op.txOk) ==> Step(p, op) == p
  {
    if op.Send? && p.free != [] {
      assert p.free == [p.free[0]] + p.free[1..];
      assert p.free[0] in p.free;
      MaskRecoversHeader(p.free[0], ETH_HEADER_SIZE);
      MaskRecoversHeader(p.free[0], ETH_HEADER_SIZE + 2);
    }
  }

  /** What a send does to the pool whose list starts with b. */
  lemma SendShape(b: nat, rest: seq<nat>, nic: set<nat>)
    requires b % SLOT == 0
    ensures Step(Pool([b] + rest, nic), Send(true, true)) == Pool(rest, nic + {b})
    ensures forall setupOk, txOk :: !(setupOk && txOk) ==>
              Step(Pool([b] + rest, nic), Send(setupOk, txOk)) == Pool([b] + rest, nic)
  {
    assert ([b] + rest)[1..] == rest;
    MaskRecoversHeader(b, ETH_HEADER_SIZE);
    MaskRecoversHeader(b, ETH_HEADER_SIZE + 2);
  }

  predicate AllAllowed(p: Pool, ops: seq<Op>)
    decreases |ops|
  {
    ops == [] || (Allowed(p, ops[0]) && AllAllowed(Step(p, ops[0]), ops[1..]))
  }

  function Exec(p: Pool, ops: seq<Op>): Pool
    decreases |ops|
  {
    if ops == [] then p else Exec(Step(p, ops[0]), ops[1..])
  }

  /**
   * Buffer conservation: over every run of sends, failed sends and completions, the buffers
   * stay partitioned between a duplicate-free free list and the NIC.
   */
  lemma {:induction false} Conservation(all: set<nat>, p: Pool, ops: seq<Op>)
    requires Aligned(all) && Partition(all, p) && AllAllowed(p, ops)
    ensures Partition(all, Exec(p, ops))
    ensures |Exec(p, ops).free| + |Exec(p, ops).nic| == |all|
    decreases |ops|
  {
    if ops == [] {
      PartitionCount(all, p.free, p.nic);
    } else {
      StepPartition(all, p, ops[0]);
      Conservation(all, Step(p, ops[0]), ops[1..]);
    }
  }

  lemma {:induction false} PartitionCount(all: set<nat>, free: seq<nat>, nic: set<nat>)
    requires Partition(all, Pool(free, nic))
    ensures |free| + |nic| == |all|
    decreases |free|
  {
    if free == [] {
      assert nic == all;
    } else {
      var b := free[0];
      assert free == [b] + free[1..] && b in free;
      assert Partition(all - {b}, Pool(free[1..], nic));
      PartitionCount(all - {b}, free[1..], nic);
    }
  }

  /** A completion keeps the partition exactly when the NIC held the buffer it reports. */
  lemma ReportKeepsPartition(all: set<nat>, p: Pool, ptr: nat)
    requires Aligned(all) && Partition(all, p)
    ensures Partition(all, Step(p, TxDone(ptr))) <==> Mask(ptr) in p.nic
  {
    var q := Step(p, TxDone(ptr));
    if Mask(ptr) in p.nic {
      StepPartition(all, p, TxDone(ptr));
    } else if Mask(ptr) in p.free {
      var i :| 0 <= i < |p.free| && p.free[i] == Mask(ptr);
      assert q.free[0] == q.free[i + 1];
    } else {
      assert q.free[0] in q.free;
    }
  }
}
