/** The Internet checksum of src/inet6.c against RFC 1071 and section 8.1 of RFC 8200. */
module Checksum {
  import opened Bytes

  // --- one's-complement arithmetic ---

  /** The 16-bit one's-complement form of n: 0 stands for 0 alone, 0xFFFF for the other multiples. */
  function Rep(n: nat): uint16 {
    if n == 0 then 0 else (n - 1) % 0xFFFF + 1
  }

  /** Addition with end-around carry (section 1 of RFC 1071). */
  function OnesAdd(a: uint16, b: uint16): uint16 {
    if a + b > 0xFFFF then a + b - 0xFFFF else a + b
  }

  /** uint16_t _swap16(uint16_t n) */
  function Swap16(n: uint16): uint16 {
    n / 0x100 + 0x100 * (n % 0x100)
  }

  lemma ModShift(x: int, k: int)
    ensures (x + 0xFFFF * k) % 0xFFFF == x % 0xFFFF
  {
  }

  /** Rep(n) is the one 16-bit number congruent to n that is zero only for n = 0. */
  lemma RepUnique(r: nat, n: nat, k: int)
    requires r <= 0xFFFF && n == r + 0xFFFF * k && (r == 0 <==> n == 0)
    ensures r == Rep(n)
  {
    if n > 0 {
      ModShift(r - 1, k);
    }
  }

  lemma RepSplit(n: nat) returns (k: nat)
    ensures n == Rep(n) + 0xFFFF * k
  {
    k := if n == 0 then 0 else (n - 1) / 0xFFFF;
  }

  lemma RepCongruent(n: nat)
    ensures Rep(n) % 0xFFFF == n % 0xFFFF && (Rep(n) == 0 <==> n == 0)
  {
    var k := RepSplit(n);
    ModShift(Rep(n), k);
  }

  lemma RepAdd(x: nat, y: nat)
    ensures Rep(Rep(x) + y) == Rep(x + y)
  {
    var a := RepSplit(x);
    var b := RepSplit(Rep(x) + y);
    RepUnique(Rep(Rep(x) + y), x + y, a + b);
  }

  lemma RepFold(n: nat)
    ensures Rep(n % TWO16 + n / TWO16) == Rep(n)
  {
    var m := n % TWO16 + n / TWO16;
    var k := RepSplit(m);
    RepUnique(Rep(m), n, k + n / TWO16);
  }

  // --- sums of 16-bit words ---

  /** The words as a little-endian machine loads them; an odd last byte is the low half. */
  function SumLE(b: seq<byte>): nat {
    if |b| == 0 then 0
    else if |b| == 1 then b[0]
    else b[0] + 0x100 * b[1] + SumLE(b[2..])
  }

  /** The words in network order; an odd last byte is padded on the right with zero. */
  function SumBE(b: seq<byte>): nat {
    if |b| == 0 then 0
    else if |b| == 1 then 0x100 * b[0]
    else 0x100 * b[0] + b[1] + SumBE(b[2..])
  }

  function Word16(lo: byte, hi: byte): uint16 {
    lo as int + 0x100 * (hi as int)
  }

  /** RFC 1071: add the words one by one with end-around carry. */
  function OnesSum(b: seq<byte>, s: uint16): uint16
    decreases |b|
  {
    if |b| == 0 then s
    else if |b| == 1 then OnesAdd(s, b[0])
    else OnesSum(b[2..], OnesAdd(s, Word16(b[0], b[1])))
  }

  lemma {:induction false} SumAppend(a: seq<byte>, b: seq<byte>)
    requires |a| % 2 == 0
    ensures SumLE(a + b) == SumLE(a) + SumLE(b)
  {
    if a == [] {
      assert a + b == b;
    } else {
      assert (a + b)[2..] == a[2..] + b;
      SumAppend(a[2..], b);
    }
  }

  lemma SumPair(x: byte, y: byte, rest: seq<byte>)
    ensures SumLE([x, y] + rest) == Word16(x, y) + SumLE(rest)
    ensures SumLE([x, y]) == Word16(x, y)
  {
    assert ([x, y] + rest)[2..] == rest;
    assert [x, y][2..] == [];
  }

  lemma {:induction false} SumBound(b: seq<byte>)
    ensures 2 * SumLE(b) <= 0xFFFF * (|b| + |b| % 2)
  {
    if |b| >= 2 {
      SumBound(b[2..]);
    }
  }

  /** Only all-zero data sums to zero. */
  lemma {:induction false} SumZero(b: seq<byte>)
    ensures SumLE(b) == 0 <==> forall i :: 0 <= i < |b| ==> b[i] == 0
  {
    if |b| >= 2 {
      SumZero(b[2..]);
      assert forall i :: 2 <= i < |b| ==> b[i] == b[2..][i - 2];
      assert forall i :: 0 <= i < |b| - 2 ==> b[2..][i] == b[i + 2];
    }
  }

  lemma OnesAddRep(s: uint16, w: uint16)
    ensures OnesAdd(s, w) == Rep(s + w)
  {
    RepUnique(OnesAdd(s, w), s + w, if s + w > 0xFFFF then 1 else 0);
  }

  /** Deferring the carries to the end gives the RFC 1071 sum. */
  lemma {:induction false} OnesSumIsRep(b: seq<byte>, s: uint16)
    ensures OnesSum(b, s) == Rep(s + SumLE(b))
    decreases |b|
  {
    if |b| == 0 {
      RepUnique(s, s, 0);
    } else if |b| == 1 {
      OnesAddRep(s, b[0]);
    } else {
      var w := Word16(b[0], b[1]);
      OnesSumIsRep(b[2..], OnesAdd(s, w));
      OnesAddRep(s, w);
      RepAdd(s + w, SumLE(b[2..]));
    }
  }

  /** The sum modulo 65535, with zero only for all-zero input: the two zeros never mix. */
  lemma OnesSumMeaning(b: seq<byte>, s: uint16)
    ensures OnesSum(b, s) % 0xFFFF == (s + SumLE(b)) % 0xFFFF
    ensures OnesSum(b, s) == 0 <==> s == 0 && forall i :: 0 <= i < |b| ==> b[i] == 0
  {
    OnesSumIsRep(b, s);
    RepCongruent(s + SumLE(b));
    SumZero(b);
  }

  /** Byte order: the network-order sum is 256 times the native one, modulo 65535. */
  lemma {:induction false} SumBEShift(b: seq<byte>) returns (k: nat)
    ensures 0x100 * SumLE(b) == SumBE(b) + 0xFFFF * k
    ensures SumLE(b) == 0 <==> SumBE(b) == 0
  {
    if |b| == 0 {
      k := 0;
    } else if |b| == 1 {
      k := 0;
    } else {
      var j := SumBEShift(b[2..]);
      k := j + b[1];
    }
  }

  /**
   * Section 2(B) of RFC 1071: summing native little-endian words and swapping the result
   * gives the sum of the network-order words, for every input, odd lengths included.
   */
  lemma ByteOrderIndependence(b: seq<byte>)
    ensures Swap16(Rep(SumLE(b))) == Rep(SumBE(b))
  {
    var n := SumLE(b);
    var k := SumBEShift(b);
    var j := RepSplit(n);
    var w: int := Rep(n);
    assert 0x100 * w == Swap16(w) + 0xFFFF * (w / 0x100);
    RepUnique(Swap16(w), SumBE(b), w / 0x100 + 0x100 * j - k);
  }

  // --- checksum() ---

  /** uint32_t accumulator; 65536 words are the most it can take without overflow. */
  method Checksum(buf: array<byte>, off: nat, len: nat, sum0: uint16) returns (r: uint16)
    requires off + len <= buf.Length && len <= 0x2_0000
    ensures r == Rep(sum0 + SumLE(buf[off..off + len]))
    ensures r == OnesSum(buf[off..off + len], sum0)
  {
    var sum: uint32 := sum0;
    var i := 0;
    ghost var all := buf[off..off + len];
    while i + 1 < len
      invariant 0 <= i <= len && i % 2 == 0
      invariant sum == sum0 + SumLE(all[..i])
    {
      SumSnoc(all, i);
      NoOverflow(all[..i + 2], sum0);
      sum := sum + Word16(buf[off + i], buf[off + i + 1]);
      i := i + 2;
    }
    NoOverflow(all, sum0);
    if i < len {
      SumLast(all);
      sum := sum + buf[off + i];
    } else {
      assert all[..i] == all;
    }
    assert sum == sum0 + SumLE(all);
    r := Fold(sum);
    OnesSumIsRep(all, sum0);
  }

  lemma NoOverflow(b: seq<byte>, s: uint16)
    requires |b| <= 0x2_0000
    ensures s + SumLE(b) < 0x1_0000_0000
  {
    SumBound(b);
  }

  lemma SumSnoc(all: seq<byte>, i: nat)
    requires i % 2 == 0 && i + 2 <= |all|
    ensures SumLE(all[..i + 2]) == SumLE(all[..i]) + Word16(all[i], all[i + 1])
  {
    SumAppend(all[..i], [all[i], all[i + 1]]);
    SumPair(all[i], all[i + 1], []);
    assert all[..i + 2] == all[..i] + [all[i], all[i + 1]];
  }

  lemma SumLast(all: seq<byte>)
    requires |all| % 2 == 1
    ensures SumLE(all) == SumLE(all[..|all| - 1]) + all[|all| - 1]
  {
    var front, last := all[..|all| - 1], [all[|all| - 1]];
    assert all == front + last;
    SumAppend(front, last);
    assert SumLE(last) == last[0];
  }

  /** The carry loop at the end of checksum(). */
  method Fold(n: uint32) returns (r: uint16)
    ensures r == Rep(n)
  {
    var sum: uint32 := n;
    while sum > 0xFFFF
      invariant Rep(sum) == Rep(n)
      decreases sum
    {
      RepFold(sum);
      sum := sum % TWO16 + sum / TWO16;
    }
    RepUnique(sum, sum, 0);
    return sum;
  }

  lemma TwoCalls(a: seq<byte>, b: seq<byte>, s: uint16)
    ensures OnesSum(b, OnesSum(a, s)) == Rep(s + SumLE(a) + SumLE(b))
  {
    OnesSumIsRep(a, s);
    OnesSumIsRep(b, OnesSum(a, s));
    RepAdd(s + SumLE(a), SumLE(b));
  }

  lemma TwoCallsFrom(a: seq<byte>, b: seq<byte>, next: byte, total: nat)
    requires total == 0x100 * next as int + SumLE(a) + SumLE(b)
    ensures OnesSum(b, OnesSum(a, Swap16(next))) == Rep(total)
  {
    assert Swap16(next) == 0x100 * next as int;
    TwoCalls(a, b, Swap16(next));
  }

  /** A region may be summed in pieces, as long as all but the last have even length. */
  lemma Chaining(a: seq<byte>, b: seq<byte>, s: uint16)
    requires |a| % 2 == 0
    ensures OnesSum(a + b, s) == OnesSum(b, OnesSum(a, s))
  {
    OnesSumIsRep(a + b, s);
    SumAppend(a, b);
    TwoCalls(a, b, s);
  }

  // --- the pseudo-header ---

  function BigEndian16(n: uint16): seq<byte> {
    [n / 0x100, n % 0x100]
  }

  /** Section 8.1 of RFC 8200: addresses, 32-bit upper-layer length, zeros, next header. */
  function PseudoHeader(addrs: seq<byte>, length: uint16, next: byte): seq<byte> {
    addrs + PseudoTail(length, next)
  }

  function PseudoTail(length: uint16, next: byte): seq<byte> {
    [0, 0] + (BigEndian16(length) + ([0, 0] + [0, next]))
  }

  lemma PseudoHeaderSum(addrs: seq<byte>, length: uint16, next: byte)
    requires |addrs| % 2 == 0
    ensures SumLE(PseudoHeader(addrs, length, next)) == SumLE(addrs) + SumLE(BigEndian16(length)) + 0x100 * next as int
  {
    SumAppend(addrs, PseudoTail(length, next));
    SumPair(0, 0, BigEndian16(length) + ([0, 0] + [0, next]));
    SumPair(length / 0x100, length % 0x100, [0, 0] + [0, next]);
    SumPair(0, 0, [0, next]);
    SumPair(0, next, []);
  }

  function PseudoSum(addrs: seq<byte>, length: uint16, next: byte, body: seq<byte>): uint16 {
    OnesSum(PseudoHeader(addrs, length, next) + body, 0)
  }

  /** The value both forms compute, before reduction to 16 bits. */
  function PseudoTotal(addrs: seq<byte>, length: uint16, next: byte, body: seq<byte>): nat {
    0x100 * next as int + SumLE(BigEndian16(length)) + SumLE(addrs + body)
  }

  lemma PseudoTotalSum(addrs: seq<byte>, length: uint16, next: byte, body: seq<byte>)
    requires |addrs| % 2 == 0
    ensures SumLE(PseudoHeader(addrs, length, next) + body) == PseudoTotal(addrs, length, next, body)
  {
    PseudoHeaderSum(addrs, length, next);
    SumAppend(PseudoHeader(addrs, length, next), body);
    SumAppend(addrs, body);
  }

  lemma PseudoSumIsRep(addrs: seq<byte>, length: uint16, next: byte, body: seq<byte>)
    requires |addrs| % 2 == 0
    ensures PseudoSum(addrs, length, next, body) == Rep(PseudoTotal(addrs, length, next, body))
  {
    PseudoTotalSum(addrs, length, next, body);
    OnesSumIsRep(PseudoHeader(addrs, length, next) + body, 0);
  }

  /**
   * The two-call form of the source - first the length field with the swapped protocol number
   * as initial sum, then addresses and payload in one go - is the checksum over the RFC's
   * pseudo-header and the payload.
   */
  lemma TwoCallsArePseudoSum(addrs: seq<byte>, length: uint16, next: byte, body: seq<byte>)
    requires |addrs| % 2 == 0
    ensures OnesSum(addrs + body, OnesSum(BigEndian16(length), Swap16(next))) == PseudoSum(addrs, length, next, body)
  {
    TwoCallsFrom(BigEndian16(length), addrs + body, next, PseudoTotal(addrs, length, next, body));
    PseudoSumIsRep(addrs, length, next, body);
  }
}
