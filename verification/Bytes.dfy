/** Fixed-width integers, byte strings and the byte orders the boot loader uses. */
module Bytes {

  datatype Option<+T> = None | Some(value: T)

  type byte = x: int | 0 <= x < 0x100
  type uint16 = x: int | 0 <= x < 0x1_0000
  type uint32 = x: int | 0 <= x < 0x1_0000_0000
  type uint64 = x: int | 0 <= x < 0x1_0000_0000_0000_0000

  const TWO16: int := 0x1_0000
  const TWO32: int := 0x1_0000_0000

  /** The n low bytes of v, least significant first (how x86 stores an integer). */
  function LittleEndian(v: nat, n: nat): (b: seq<byte>)
    ensures |b| == n
  {
    if n == 0 then [] else [v % 0x100] + LittleEndian(v / 0x100, n - 1)
  }

  function FromLittleEndian(b: seq<byte>): nat {
    if b == [] then 0 else b[0] + 0x100 * FromLittleEndian(b[1..])
  }

  function Pow256(n: nat): nat {
    if n == 0 then 1 else 0x100 * Pow256(n - 1)
  }

  /** Storing an integer that fits and loading it again gives it back. */
  lemma {:induction false} LittleEndianRoundTrip(v: nat, n: nat)
    requires v < Pow256(n)
    ensures FromLittleEndian(LittleEndian(v, n)) == v
  {
    if n > 0 {
      LittleEndianRoundTrip(v / 0x100, n - 1);
      assert LittleEndian(v, n)[1..] == LittleEndian(v / 0x100, n - 1);
    }
  }

  /** Loading an integer and storing it again gives its bytes back. */
  lemma {:induction false} LittleEndianInverse(b: seq<byte>)
    ensures LittleEndian(FromLittleEndian(b), |b|) == b
  {
    if b != [] {
      LittleEndianInverse(b[1..]);
    }
  }

  /** A 32-bit integer from its four bytes, the lowest first. */
  function Quad(b0: byte, b1: byte, b2: byte, b3: byte): int {
    b0 as int + 0x100 * (b1 as int) + 0x1_0000 * (b2 as int) + 0x100_0000 * (b3 as int)
  }

  lemma FourBytes(b: seq<byte>)
    requires |b| == 4
    ensures FromLittleEndian(b) == Quad(b[0], b[1], b[2], b[3])
  {
    assert FromLittleEndian(b[1..][1..][1..]) == b[3] + 0x100 * FromLittleEndian(b[1..][1..][1..][1..]);
    assert FromLittleEndian(b[1..][1..]) == b[2] + 0x100 * FromLittleEndian(b[1..][1..][1..]);
    assert FromLittleEndian(b[1..]) == b[1] + 0x100 * FromLittleEndian(b[1..][1..]);
  }

  lemma QuadBytes(b0: byte, b1: byte, b2: byte, b3: byte)
    ensures Quad(b0, b1, b2, b3) >= 0 && LittleEndian(Quad(b0, b1, b2, b3), 4) == [b0, b1, b2, b3]
  {
    var b := [b0, b1, b2, b3];
    FourBytes(b);
    LittleEndianInverse(b);
  }

  lemma Stored32(v: uint32)
    ensures FromLittleEndian(LittleEndian(v, 4)) == v
  {
    assert Pow256(4) == 0x1_0000_0000 by {
      assert Pow256(1) == 0x100;
      assert Pow256(2) == 0x1_0000;
      assert Pow256(3) == 0x100_0000;
    }
    LittleEndianRoundTrip(v, 4);
  }

  lemma Assoc<T>(x: seq<T>, y: seq<T>, z: seq<T>)
    ensures x + y + z == x + (y + z)
  {
  }

  /** s with the bytes from off on replaced by d: what memcpy(s + off, d, |d|) leaves. */
  function Splice(s: seq<byte>, off: nat, d: seq<byte>): (r: seq<byte>)
    requires off + |d| <= |s|
    ensures |r| == |s|
    ensures r[off..off + |d|] == d
    ensures forall i :: 0 <= i < |s| && !(off <= i < off + |d|) ==> r[i] == s[i]
  {
    s[..off] + d + s[off + |d|..]
  }

  lemma SubSlice(f: seq<byte>, at: nat, s: seq<byte>, i: nat, j: nat)
    requires at + |s| <= |f| && f[at..at + |s|] == s && i <= j <= |s|
    ensures f[at + i..at + j] == s[i..j]
  {
    forall k | 0 <= k < j - i ensures f[at + i..at + j][k] == s[i..j][k] {
      assert f[at + i + k] == f[at..at + |s|][i + k];
    }
  }

  /** memcpy(p + at, d, |d|) */
  method Memcpy(p: array<byte>, at: nat, d: seq<byte>)
    requires at + |d| <= p.Length
    modifies p
    ensures p[..] == Splice(old(p[..]), at, d)
  {
    var i := 0;
    while i < |d|
      invariant 0 <= i <= |d|
      invariant forall k :: 0 <= k < p.Length ==> p[k] == if at <= k < at + i then d[k - at] else old(p[k])
    {
      p[at + i] := d[i];
      i := i + 1;
    }
    ghost var s := Splice(old(p[..]), at, d);
    forall k | 0 <= k < p.Length ensures p[k] == s[k] {
      if at <= k < at + |d| {
        assert s[k] == s[at..at + |d|][k - at];
      }
    }
    assert p[..] == s;
  }
}
