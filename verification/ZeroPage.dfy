/** The zero page handed to the kernel: header copy, loader fields and E820 table (src/osboot.c). */
module ZeroPage {
  import opened Bytes
  import opened E820

  const PAGE_SIZE: nat := 4096

  const ZP_ACPI_RSD: nat := 0x080
  const ZP_FB_BASE: nat := 0x090
  const ZP_FB_WIDTH: nat := 0x094
  const ZP_FB_HEIGHT: nat := 0x098
  const ZP_FB_STRIDE: nat := 0x09C
  const ZP_FB_FORMAT: nat := 0x0A0
  const ZP_FB_REGBASE: nat := 0x0A4
  const ZP_FB_SIZE: nat := 0x0A8
  const ZP_E820_COUNT: nat := 0x1E8
  const ZP_SETUP: nat := 0x1F1
  const ZP_JUMP: nat := 0x200
  const ZP_LOADER_TYPE: nat := 0x210
  const ZP_RAMDISK_BASE: nat := 0x218
  const ZP_RAMDISK_SIZE: nat := 0x21C
  const ZP_EXTRA_MAGIC: nat := 0x220
  const ZP_CMDLINE: nat := 0x228
  const ZP_E820_TABLE: nat := 0x2D0

  const ZP_MAGIC_VALUE: uint32 := 0xDBC64323

  /** A store into the page. */
  datatype Write = Write(off: nat, data: seq<byte>)

  predicate Fits(w: Write) {
    w.off + |w.data| <= PAGE_SIZE
  }

  predicate AllFit(ws: seq<Write>) {
    forall i :: 0 <= i < |ws| ==> Fits(ws[i])
  }

  predicate Apart(v: Write, w: Write) {
    v.off + |v.data| <= w.off || w.off + |w.data| <= v.off
  }

  /** The stores in order; later ones overwrite earlier ones. */
  function Apply(page: seq<byte>, ws: seq<Write>): (r: seq<byte>)
    requires |page| == PAGE_SIZE && AllFit(ws)
    ensures |r| == PAGE_SIZE
  {
    if ws == [] then page
    else Splice(Apply(page, ws[..|ws| - 1]), ws[|ws| - 1].off, ws[|ws| - 1].data)
  }

  lemma SpliceApart(s: seq<byte>, off: nat, d: seq<byte>, lo: nat, hi: nat)
    requires off + |d| <= |s| && lo <= hi <= |s| && (hi <= off || off + |d| <= lo)
    ensures Splice(s, off, d)[lo..hi] == s[lo..hi]
  {
  }

  /** A store that no later store touches is read back. */
  lemma {:induction false} ReadBack(page: seq<byte>, ws: seq<Write>, i: nat)
    requires |page| == PAGE_SIZE && AllFit(ws) && i < |ws|
    requires forall j :: i < j < |ws| ==> Apart(ws[i], ws[j])
    ensures Apply(page, ws)[ws[i].off..ws[i].off + |ws[i].data|] == ws[i].data
    decreases |ws|
  {
    if i < |ws| - 1 {
      var p := ws[..|ws| - 1];
      ReadBack(page, p, i);
      SpliceApart(Apply(page, p), ws[|ws| - 1].off, ws[|ws| - 1].data, ws[i].off, ws[i].off + |ws[i].data|);
    }
  }

  /** A byte that no store touches is unchanged. */
  lemma {:induction false} Untouched(page: seq<byte>, ws: seq<Write>, k: nat)
    requires |page| == PAGE_SIZE && AllFit(ws) && k < PAGE_SIZE
    requires forall j :: 0 <= j < |ws| ==> !(ws[j].off <= k < ws[j].off + |ws[j].data|)
    ensures Apply(page, ws)[k] == page[k]
    decreases |ws|
  {
    if ws != [] {
      Untouched(page, ws[..|ws| - 1], k);
    }
  }

  // --- what the loader stores ---

  /** The values boot_kernel takes from the firmware and its arguments. */
  datatype Args = Args(cmdline: uint64, acpi: uint32, fbBase: uint64, width: uint32, height: uint32, stride: uint32,
                       ramdisk: Option<(uint64, uint64)>)

  function Low32(x: uint64): uint32 {
    x % 0x1_0000_0000
  }

  /** A 32-bit field that was given a possibly larger value: the value itself if it fits. */
  predicate Carries(field: nat, v: nat) {
    && field < 0x1_0000_0000 && (v - field) % 0x1_0000_0000 == 0
    && (v < 0x1_0000_0000 ==> field == v)
  }

  lemma LowCarries(v: uint64)
    ensures Carries(Low32(v), v)
  {
    assert v == Low32(v) + 0x1_0000_0000 * (v / 0x1_0000_0000);
  }

  function Store32(off: nat, v: uint32): Write {
    Write(off, LittleEndian(v, 4))
  }

  /** setup_end - the end of the setup header, from the offset byte of its jump instruction. */
  function SetupEnd(image: seq<byte>): nat
    requires |image| >= 1024
  {
    ZP_JUMP + image[ZP_JUMP + 1]
  }

  function HeaderWrites(image: seq<byte>, cmdline: uint64): seq<Write>
    requires |image| >= 1024
  {
    [Write(ZP_SETUP, image[ZP_SETUP..SetupEnd(image)]),
     Store32(ZP_CMDLINE, Low32(cmdline))]
  }

  function DefaultWrites(): seq<Write> {
    [Store32(ZP_RAMDISK_BASE, 0)] + TypeWrites()
  }

  function TypeWrites(): seq<Write> {
    [Store32(ZP_RAMDISK_SIZE, 0), Write(ZP_LOADER_TYPE, [0xFF])]
  }

  /** load_kernel on the zeroed page. */
  function LoadWrites(image: seq<byte>, cmdline: uint64): seq<Write>
    requires |image| >= 1024
  {
    HeaderWrites(image, cmdline) + DefaultWrites()
  }

  function RootWrites(a: Args): seq<Write> {
    [Store32(ZP_EXTRA_MAGIC, ZP_MAGIC_VALUE),
     Store32(ZP_ACPI_RSD, a.acpi)]
  }

  function ModeWrites(a: Args): seq<Write> {
    [Store32(ZP_FB_BASE, Low32(a.fbBase)),
     Store32(ZP_FB_WIDTH, a.width),
     Store32(ZP_FB_HEIGHT, a.height),
     Store32(ZP_FB_STRIDE, a.stride)]
  }

  function FormatWrites(): seq<Write> {
    [Store32(ZP_FB_FORMAT, 4),
     Store32(ZP_FB_REGBASE, 0),
     Store32(ZP_FB_SIZE, 256 * 1024 * 1024)]
  }

  /** boot_kernel up to the ramdisk. */
  function BootWrites(a: Args): seq<Write> {
    RootWrites(a) + FramebufferWrites(a)
  }

  function FramebufferWrites(a: Args): seq<Write> {
    ModeWrites(a) + FormatWrites()
  }

  function RamdiskWrites(a: Args): seq<Write> {
    if a.ramdisk.Some? && a.ramdisk.value.1 != 0 then
      [Store32(ZP_RAMDISK_BASE, Low32(a.ramdisk.value.0)), Store32(ZP_RAMDISK_SIZE, Low32(a.ramdisk.value.1))]
    else []
  }

  /** struct e820entry, packed: 20 bytes. */
  function EncodeEntry(e: Entry): (b: seq<byte>)
    ensures |b| == 20
  {
    LittleEndian(e.addr, 8) + LittleEndian(e.size, 8) + LittleEndian(e.kind, 4)
  }

  function EncodeTable(es: seq<Entry>): (b: seq<byte>)
    ensures |b| == 20 * |es|
  {
    if es == [] then [] else EncodeTable(es[..|es| - 1]) + EncodeEntry(es[|es| - 1])
  }

  /** install_memmap */
  function MemmapWrites(es: seq<Entry>): seq<Write>
    requires |es| < TABLE_SIZE
  {
    [Write(ZP_E820_TABLE, EncodeTable(es)), Write(ZP_E820_COUNT, [|es|])]
  }

  function AllWrites(image: seq<byte>, a: Args, es: seq<Entry>): seq<Write>
    requires |image| >= 1024 && |es| < TABLE_SIZE
  {
    LoadWrites(image, a.cmdline) + BootWrites(a) + RamdiskWrites(a) + MemmapWrites(es)
  }

  lemma WritesFit(image: seq<byte>, a: Args, es: seq<Entry>)
    requires |image| >= 1024 && |es| < TABLE_SIZE
    ensures AllFit(AllWrites(image, a, es))
  {
    assert AllFit(LoadWrites(image, a.cmdline));
    assert AllFit(BootWrites(a));
    assert AllFit(RamdiskWrites(a));
    assert AllFit(MemmapWrites(es));
  }

  function Zeros(): (z: seq<byte>)
    ensures |z| == PAGE_SIZE
  {
    seq(PAGE_SIZE, _ => 0)
  }

  /** The page as start_kernel hands it over. */
  function FinalPage(image: seq<byte>, a: Args, es: seq<Entry>): (p: seq<byte>)
    requires |image| >= 1024 && |es| < TABLE_SIZE
    ensures |p| == PAGE_SIZE
  {
    WritesFit(image, a, es);
    Apply(Zeros(), AllWrites(image, a, es))
  }

  function Read32(p: seq<byte>, off: nat): nat
    requires off + 4 <= |p|
  {
    FromLittleEndian(p[off..off + 4])
  }

  function ReadEntry(p: seq<byte>, off: nat): (nat, nat, nat)
    requires off + 20 <= |p|
  {
    (FromLittleEndian(p[off..off + 8]), FromLittleEndian(p[off + 8..off + 16]), FromLittleEndian(p[off + 16..off + 20]))
  }

  predicate LaterApart(ws: seq<Write>, i: nat)
    requires i < |ws|
  {
    forall j :: i < j < |ws| ==> Apart(ws[i], ws[j])
  }

  /** The loader's own fields in the header; the ramdisk fields may be stored a second time. */
  lemma LoadFieldsApart(image: seq<byte>, a: Args, es: seq<Entry>, i: nat)
    requires |image| >= 1024 && |es| < TABLE_SIZE && 1 <= i < 5
    requires i == 2 || i == 3 ==> RamdiskWrites(a) == []
    ensures LaterApart(AllWrites(image, a, es), i)
  {
    var ls := LoadWrites(image, a.cmdline);
    var rest := BootWrites(a) + RamdiskWrites(a) + MemmapWrites(es);
    assert ls[i].off + |ls[i].data| <= ZP_CMDLINE + 4;
    assert forall j :: 0 <= j < |rest| ==> Apart(ls[i], rest[j]);
    assert AllWrites(image, a, es) == ls + rest;
  }

  lemma BootFieldsApart(image: seq<byte>, a: Args, es: seq<Entry>, i: nat)
    requires |image| >= 1024 && |es| < TABLE_SIZE && i < 9
    ensures LaterApart(AllWrites(image, a, es), 5 + i)
  {
    var bs := BootWrites(a);
    assert bs[i].off == if i == 0 then ZP_EXTRA_MAGIC else if i == 1 then ZP_ACPI_RSD else ZP_FB_BASE + 4 * (i - 2);
    var rest := RamdiskWrites(a) + MemmapWrites(es);
    assert forall j :: 0 <= j < |rest| ==> Apart(bs[i], rest[j]);
    assert AllWrites(image, a, es) == LoadWrites(image, a.cmdline) + bs + rest;
  }

  lemma LastFieldsApart(image: seq<byte>, a: Args, es: seq<Entry>)
    requires |image| >= 1024 && |es| < TABLE_SIZE
    ensures var ws := AllWrites(image, a, es);
            var n := 14 + |RamdiskWrites(a)|;
            && |ws| == n + 2 && ws[n..] == MemmapWrites(es)
            && LaterApart(ws, n) && LaterApart(ws, n + 1)
            && (RamdiskWrites(a) != [] ==>
                  ws[14..16] == RamdiskWrites(a) && LaterApart(ws, 14) && LaterApart(ws, 15))
  {
  }

  lemma FieldValue(image: seq<byte>, a: Args, es: seq<Entry>, i: nat, off: nat, v: uint32)
    requires |image| >= 1024 && |es| < TABLE_SIZE
    requires var ws := AllWrites(image, a, es); i < |ws| && ws[i] == Store32(off, v) && LaterApart(ws, i)
    requires off + 4 <= PAGE_SIZE
    ensures Read32(FinalPage(image, a, es), off) == v
  {
    WritesFit(image, a, es);
    ReadBack(Zeros(), AllWrites(image, a, es), i);
    Stored32(v);
  }

  // --- the packed table ---

  lemma {:induction false} TableSlice(es: seq<Entry>, i: nat)
    requires i < |es|
    ensures EncodeTable(es)[20 * i..20 * (i + 1)] == EncodeEntry(es[i])
    decreases |es|
  {
    var p := es[..|es| - 1];
    var t := EncodeTable(p);
    assert EncodeTable(es) == t + EncodeEntry(es[|es| - 1]) && |t| == 20 * (|es| - 1);
    if i < |es| - 1 {
      TableSlice(p, i);
      assert EncodeTable(es)[20 * i..20 * (i + 1)] == t[20 * i..20 * (i + 1)];
    } else {
      assert EncodeTable(es)[|t|..|t| + 20] == EncodeEntry(es[i]);
    }
  }

  lemma Stored64(v: uint64)
    ensures FromLittleEndian(LittleEndian(v, 8)) == v
  {
    assert Pow256(8) == 0x1_0000_0000_0000_0000 by {
      assert Pow256(2) == 0x1_0000;
      assert Pow256(4) == 0x1_0000_0000;
      assert Pow256(6) == 0x1_0000_0000_0000;
    }
    LittleEndianRoundTrip(v, 8);
  }

  lemma EntryDecodes(p: seq<byte>, off: nat, e: Entry)
    requires off + 20 <= |p| && p[off..off + 20] == EncodeEntry(e)
    ensures ReadEntry(p, off) == (e.addr, e.size, e.kind)
  {
    var b := EncodeEntry(e);
    SubSlice(p, off, b, 0, 8);
    SubSlice(p, off, b, 8, 16);
    SubSlice(p, off, b, 16, 20);
    assert b[0..8] == LittleEndian(e.addr, 8);
    assert b[8..16] == LittleEndian(e.size, 8);
    assert b[16..20] == LittleEndian(e.kind, 4);
    Stored64(e.addr);
    Stored64(e.size);
    Stored32(e.kind);
  }

  /** Every entry of the table is read back from the page, and the count with it. */
  lemma TableReadsBack(image: seq<byte>, a: Args, es: seq<Entry>, i: nat)
    requires |image| >= 1024 && i < |es| < TABLE_SIZE
    ensures ReadEntry(FinalPage(image, a, es), 0x2D0 + 20 * i) == (es[i].addr, es[i].size, es[i].kind)
  {
    var ws := AllWrites(image, a, es);
    var n := 14 + |RamdiskWrites(a)|;
    var p := FinalPage(image, a, es);
    WritesFit(image, a, es);
    LastFieldsApart(image, a, es);
    assert ws[n] == ws[n..][0];
    ReadBack(Zeros(), ws, n);
    var t := EncodeTable(es);
    assert p[ZP_E820_TABLE..ZP_E820_TABLE + |t|] == t;
    TableSlice(es, i);
    EntryInTable(p, t, es[i], i);
  }

  lemma EntryInTable(p: seq<byte>, t: seq<byte>, e: Entry, i: nat)
    requires |p| == PAGE_SIZE && 20 * (i + 1) <= |t| && ZP_E820_TABLE + |t| <= PAGE_SIZE
    requires p[ZP_E820_TABLE..ZP_E820_TABLE + |t|] == t && t[20 * i..20 * (i + 1)] == EncodeEntry(e)
    ensures ReadEntry(p, ZP_E820_TABLE + 20 * i) == (e.addr, e.size, e.kind)
  {
    SubSlice(p, ZP_E820_TABLE, t, 20 * i, 20 * (i + 1));
    EntryDecodes(p, ZP_E820_TABLE + 20 * i, e);
  }

  lemma CountReadsBack(image: seq<byte>, a: Args, es: seq<Entry>)
    requires |image| >= 1024 && |es| < TABLE_SIZE
    ensures FinalPage(image, a, es)[0x1E8] == |es|
    ensures FinalPage(image, a, es)[0x210] == 0xFF
  {
    var ws := AllWrites(image, a, es);
    var n := 14 + |RamdiskWrites(a)|;
    WritesFit(image, a, es);
    LastFieldsApart(image, a, es);
    assert ws[n + 1] == ws[n..][1];
    ReadBack(Zeros(), ws, n + 1);
    LoadFieldsApart(image, a, es, 4);
    ReadBack(Zeros(), ws, 4);
    var p := FinalPage(image, a, es);
    assert p[ZP_E820_COUNT] == p[ZP_E820_COUNT..ZP_E820_COUNT + 1][0];
    assert p[ZP_LOADER_TYPE] == p[ZP_LOADER_TYPE..ZP_LOADER_TYPE + 1][0];
  }

  /** The ramdisk fields hold the ramdisk, or zero if there is none. */
  lemma RamdiskReadsBack(image: seq<byte>, a: Args, es: seq<Entry>)
    requires |image| >= 1024 && |es| < TABLE_SIZE
    ensures var p := FinalPage(image, a, es);
            if a.ramdisk.Some? && a.ramdisk.value.1 != 0 then
              Carries(Read32(p, 0x218), a.ramdisk.value.0) && Carries(Read32(p, 0x21C), a.ramdisk.value.1)
            else Read32(p, 0x218) == Read32(p, 0x21C) == 0
  {
    LastFieldsApart(image, a, es);
    var ws := AllWrites(image, a, es);
    if a.ramdisk.Some? && a.ramdisk.value.1 != 0 {
      assert ws[14] == ws[14..16][0] && ws[15] == ws[14..16][1];
      LowCarries(a.ramdisk.value.0);
      LowCarries(a.ramdisk.value.1);
      FieldValue(image, a, es, 14, ZP_RAMDISK_BASE, Low32(a.ramdisk.value.0));
      FieldValue(image, a, es, 15, ZP_RAMDISK_SIZE, Low32(a.ramdisk.value.1));
    } else {
      LoadFieldsApart(image, a, es, 2);
      LoadFieldsApart(image, a, es, 3);
      FieldValue(image, a, es, 2, ZP_RAMDISK_BASE, 0);
      FieldValue(image, a, es, 3, ZP_RAMDISK_SIZE, 0);
    }
  }

  lemma BootFieldReadsBack(image: seq<byte>, a: Args, es: seq<Entry>, i: nat, off: nat, v: uint32)
    requires |image| >= 1024 && |es| < TABLE_SIZE && i < 9
    requires BootWrites(a)[i] == Store32(off, v) && off + 4 <= PAGE_SIZE
    ensures Read32(FinalPage(image, a, es), off) == v
  {
    BootFieldsApart(image, a, es, i);
    assert AllWrites(image, a, es)[5 + i] == BootWrites(a)[i];
    FieldValue(image, a, es, 5 + i, off, v);
  }

  /**
   * Zero-page integrity, for every setup_end the image byte can encode: after the header copy,
   * the field stores and the memory map, every field the loader wrote reads back its last value.
   */
  lemma FieldsReadBack(image: seq<byte>, a: Args, es: seq<Entry>)
    requires |image| >= 1024 && |es| < TABLE_SIZE
    ensures var p := FinalPage(image, a, es);
            && Carries(Read32(p, 0x228), a.cmdline)
            && Read32(p, 0x220) == 0xDBC64323
            && Read32(p, 0x080) == a.acpi
  {
    LowCarries(a.cmdline);
    LoadFieldsApart(image, a, es, 1);
    FieldValue(image, a, es, 1, ZP_CMDLINE, Low32(a.cmdline));
    BootFieldReadsBack(image, a, es, 0, ZP_EXTRA_MAGIC, ZP_MAGIC_VALUE);
    BootFieldReadsBack(image, a, es, 1, ZP_ACPI_RSD, a.acpi);
  }

  lemma FramebufferReadsBack(image: seq<byte>, a: Args, es: seq<Entry>)
    requires |image| >= 1024 && |es| < TABLE_SIZE
    ensures var p := FinalPage(image, a, es);
            && Carries(Read32(p, 0x090), a.fbBase)
            && Read32(p, 0x094) == a.width && Read32(p, 0x098) == a.height
            && Read32(p, 0x09C) == a.stride && Read32(p, 0x0A0) == 4
            && Read32(p, 0x0A4) == 0 && Read32(p, 0x0A8) == 0x10000000
  {
    LowCarries(a.fbBase);
    BootFieldReadsBack(image, a, es, 2, ZP_FB_BASE, Low32(a.fbBase));
    BootFieldReadsBack(image, a, es, 3, ZP_FB_WIDTH, a.width);
    BootFieldReadsBack(image, a, es, 4, ZP_FB_HEIGHT, a.height);
    BootFieldReadsBack(image, a, es, 5, ZP_FB_STRIDE, a.stride);
    BootFieldReadsBack(image, a, es, 6, ZP_FB_FORMAT, 4);
    BootFieldReadsBack(image, a, es, 7, ZP_FB_REGBASE, 0);
    BootFieldReadsBack(image, a, es, 8, ZP_FB_SIZE, 0x10000000);
  }

  // --- everything else on the page ---

  /** The bytes the loader writes for itself, given n table entries. */
  predicate LoaderByte(k: nat, n: nat) {
    || 0x080 <= k < 0x084
    || 0x090 <= k < 0x0AC
    || k == 0x1E8 || k == 0x210
    || 0x218 <= k < 0x224
    || 0x228 <= k < 0x22C
    || 0x2D0 <= k < 0x2D0 + 20 * n
  }

  lemma {:induction false} ApplyConcat(page: seq<byte>, a: seq<Write>, b: seq<Write>)
    requires |page| == PAGE_SIZE && AllFit(a) && AllFit(b)
    ensures AllFit(a + b) && Apply(page, a + b) == Apply(Apply(page, a), b)
    decreases |b|
  {
    if b == [] {
      assert a + b == a;
    } else {
      var p := b[..|b| - 1];
      ApplyConcat(page, a, p);
      assert (a + b)[..|a + b| - 1] == a + p;
    }
  }

  predicate Misses(ws: seq<Write>, k: nat) {
    forall j :: 0 <= j < |ws| ==> !(ws[j].off <= k < ws[j].off + |ws[j].data|)
  }

  lemma BootWritesMiss(a: Args, k: nat, n: nat)
    requires !LoaderByte(k, n)
    ensures Misses(BootWrites(a), k)
  {
    assert Misses(RootWrites(a), k) && Misses(ModeWrites(a), k) && Misses(FormatWrites(), k);
  }

  lemma MissesBoth(a: seq<Write>, b: seq<Write>, k: nat)
    requires Misses(a, k) && Misses(b, k)
    ensures Misses(a + b, k)
  {
  }

  lemma OtherWritesMiss(image: seq<byte>, a: Args, es: seq<Entry>, k: nat)
    requires |image| >= 1024 && |es| < TABLE_SIZE && !LoaderByte(k, |es|)
    ensures Misses(AllWrites(image, a, es)[1..], k)
  {
    var ls := LoadWrites(image, a.cmdline);
    var bs, rs, ms := BootWrites(a), RamdiskWrites(a), MemmapWrites(es);
    BootWritesMiss(a, k, |es|);
    assert Misses(ls[1..], k) && Misses(rs, k) && Misses(ms, k);
    MissesBoth(ls[1..], bs, k);
    MissesBoth(ls[1..] + bs, rs, k);
    MissesBoth(ls[1..] + bs + rs, ms, k);
    DropFirst(ls, bs, rs, ms);
  }

  lemma DropFirst(a: seq<Write>, b: seq<Write>, c: seq<Write>, d: seq<Write>)
    requires a != []
    ensures (a + b + c + d)[1..] == a[1..] + b + c + d
  {
  }

  /** Every other byte is the image's within the setup header and zero outside it. */
  lemma RestOfPage(image: seq<byte>, a: Args, es: seq<Entry>, k: nat)
    requires |image| >= 1024 && |es| < TABLE_SIZE && k < PAGE_SIZE && !LoaderByte(k, |es|)
    ensures FinalPage(image, a, es)[k] == if 0x1F1 <= k < 0x200 + image[0x201] as int then image[k] else 0
  {
    var ws := AllWrites(image, a, es);
    WritesFit(image, a, es);
    OtherWritesMiss(image, a, es, k);
    ApplyConcat(Zeros(), ws[..1], ws[1..]);
    assert ws == ws[..1] + ws[1..];
    var p := Apply(Zeros(), ws[..1]);
    Untouched(p, ws[1..], k);
    HeaderCopied(image, a, es);
    assert ZP_SETUP <= k < SetupEnd(image) ==> p[k] == p[ZP_SETUP..SetupEnd(image)][k - ZP_SETUP];
  }

  lemma HeaderCopied(image: seq<byte>, a: Args, es: seq<Entry>)
    requires |image| >= 1024 && |es| < TABLE_SIZE
    ensures var ws := AllWrites(image, a, es);
            && AllFit(ws[..1])
            && var p := Apply(Zeros(), ws[..1]);
               && p[ZP_SETUP..SetupEnd(image)] == image[ZP_SETUP..SetupEnd(image)]
               && forall k :: 0 <= k < PAGE_SIZE && !(ZP_SETUP <= k < SetupEnd(image)) ==> p[k] == 0
  {
    var w := Write(ZP_SETUP, image[ZP_SETUP..SetupEnd(image)]);
    assert AllWrites(image, a, es)[..1] == [w];
    assert [w][..0] == [];
    assert Apply(Zeros(), [w]) == Splice(Apply(Zeros(), []), w.off, w.data);
  }

  // --- what each part of the loader leaves on a page ---

  /** The bytes load_kernel stores besides the copy of the setup header. */
  predicate LoadByte(k: nat) {
    k == 0x210 || 0x218 <= k < 0x220 || 0x228 <= k < 0x22C
  }

  /** q is p with the setup header of the image, a command line, no ramdisk and the loader's type. */
  predicate Loaded(p: seq<byte>, q: seq<byte>, image: seq<byte>, cmdline: uint64)
    requires |p| == |q| == PAGE_SIZE && |image| >= 1024
  {
    && Carries(Read32(q, 0x228), cmdline) && q[0x210] == 0xFF
    && Read32(q, 0x218) == 0 && Read32(q, 0x21C) == 0
    && forall k :: 0 <= k < PAGE_SIZE && !LoadByte(k) ==>
         q[k] == if 0x1F1 <= k < 0x200 + image[0x201] as int then image[k] else p[k]
  }

  /** q is p with the table es and its count, and nothing else changed. */
  predicate Installed(p: seq<byte>, q: seq<byte>, es: seq<Entry>)
    requires |p| == |q| == PAGE_SIZE && |es| < TABLE_SIZE
  {
    && q[0x1E8] == |es|
    && (forall i :: 0 <= i < |es| ==> ReadEntry(q, 0x2D0 + 20 * i) == (es[i].addr, es[i].size, es[i].kind))
    && forall k :: 0 <= k < PAGE_SIZE && k != 0x1E8 && !(0x2D0 <= k < 0x2D0 + 20 * |es|) ==> q[k] == p[k]
  }

  /** A page that holds all stores in order is the final page. */
  lemma Finished(image: seq<byte>, a: Args, es: seq<Entry>, log: seq<Write>, q: seq<byte>)
    requires |image| >= 1024 && |es| < TABLE_SIZE
    requires log == LoadWrites(image, a.cmdline) + (BootWrites(a) + RamdiskWrites(a)) + MemmapWrites(es)
    requires AllFit(log) && q == Apply(Zeros(), log)
    ensures q == FinalPage(image, a, es)
  {
    Assoc(LoadWrites(image, a.cmdline), BootWrites(a), RamdiskWrites(a));
  }

  /** q is p but for the bytes from lo to hi. */
  predicate SameBut(p: seq<byte>, q: seq<byte>, lo: nat, hi: nat) {
    |p| == |q| && forall k :: 0 <= k < |p| && !(lo <= k < hi) ==> q[k] == p[k]
  }

  lemma SpliceLeaves(p: seq<byte>, off: nat, d: seq<byte>)
    requires off + |d| <= |p|
    ensures var q := Splice(p, off, d);
            q[off..off + |d|] == d && SameBut(p, q, off, off + |d|)
  {
  }

  /** Two stores apart from each other. */
  lemma TwoLeave(p: seq<byte>, off: nat, d: seq<byte>, off': nat, d': seq<byte>)
    requires off + |d| <= |p| && off' + |d'| <= off
    ensures var q := Splice(Splice(p, off, d), off', d');
            && |q| == |p| && q[off..off + |d|] == d && q[off'..off' + |d'|] == d'
            && forall k :: 0 <= k < |p| && !(off <= k < off + |d|) && !(off' <= k < off' + |d'|) ==> q[k] == p[k]
  {
    var r := Splice(p, off, d);
    SpliceApart(r, off', d', off, off + |d|);
  }

  lemma InstallLeaves(p: seq<byte>, es: seq<Entry>, t: seq<byte>, q: seq<byte>)
    requires |p| == |q| == PAGE_SIZE && |es| < TABLE_SIZE && t == EncodeTable(es) && |t| == 20 * |es|
    requires q == Splice(Splice(p, ZP_E820_TABLE, t), ZP_E820_COUNT, [|es|])
    ensures Installed(p, q, es)
  {
    TwoLeave(p, ZP_E820_TABLE, t, ZP_E820_COUNT, [|es|]);
    assert q[ZP_E820_COUNT] == q[ZP_E820_COUNT..ZP_E820_COUNT + 1][0];
    forall i | 0 <= i < |es|
      ensures ReadEntry(q, ZP_E820_TABLE + 20 * i) == (es[i].addr, es[i].size, es[i].kind)
    {
      TableSlice(es, i);
      EntryInTable(q, t, es[i], i);
    }
  }

  /** What the copy of the setup header and the command line leave. */
  predicate Headed(p: seq<byte>, q: seq<byte>, image: seq<byte>, cmdline: uint64)
    requires |p| == |q| == PAGE_SIZE && |image| >= 1024
  {
    && Read32(q, ZP_CMDLINE) == Low32(cmdline)
    && forall k :: 0 <= k < PAGE_SIZE && !(ZP_CMDLINE <= k < ZP_CMDLINE + 4) ==>
         q[k] == if ZP_SETUP <= k < SetupEnd(image) then image[k] else p[k]
  }

  lemma HeaderLeaves(p: seq<byte>, image: seq<byte>, cmdline: uint64, header: seq<byte>, c: seq<byte>, q: seq<byte>)
    requires |p| == |q| == PAGE_SIZE && |image| >= 1024
    requires header == image[ZP_SETUP..SetupEnd(image)] && c == LittleEndian(Low32(cmdline), 4)
    requires q == Splice(Splice(p, ZP_SETUP, header), ZP_CMDLINE, c)
    ensures Headed(p, q, image, cmdline)
  {
    var r := Splice(p, ZP_SETUP, header);
    SpliceLeaves(p, ZP_SETUP, header);
    SpliceLeaves(r, ZP_CMDLINE, c);
    Stored32(Low32(cmdline));
    assert r[ZP_SETUP..SetupEnd(image)] == header;
    forall k | ZP_SETUP <= k < SetupEnd(image) ensures r[k] == image[k] {
      assert r[k] == r[ZP_SETUP..SetupEnd(image)][k - ZP_SETUP];
    }
  }

  /** What the stores of a missing ramdisk and the loader's type leave. */
  predicate Defaulted(p: seq<byte>, q: seq<byte>)
    requires |p| == |q| == PAGE_SIZE
  {
    && Read32(q, ZP_RAMDISK_BASE) == 0 && Read32(q, ZP_RAMDISK_SIZE) == 0 && q[ZP_LOADER_TYPE] == 0xFF
    && forall k :: 0 <= k < PAGE_SIZE && k != ZP_LOADER_TYPE && !(ZP_RAMDISK_BASE <= k < ZP_RAMDISK_SIZE + 4) ==>
         q[k] == p[k]
  }

  lemma DefaultsLeave(p: seq<byte>, z: seq<byte>, q: seq<byte>)
    requires |p| == |q| == PAGE_SIZE && z == LittleEndian(0, 4)
    requires q == Splice(Splice(Splice(p, ZP_RAMDISK_BASE, z), ZP_RAMDISK_SIZE, z), ZP_LOADER_TYPE, [0xFF])
    ensures Defaulted(p, q)
  {
    var r := Splice(p, ZP_RAMDISK_BASE, z);
    SpliceLeaves(p, ZP_RAMDISK_BASE, z);
    TwoLeave(r, ZP_RAMDISK_SIZE, z, ZP_LOADER_TYPE, [0xFF]);
    Stored32(0);
    assert q[ZP_RAMDISK_BASE..ZP_RAMDISK_BASE + 4] == r[ZP_RAMDISK_BASE..ZP_RAMDISK_BASE + 4];
    assert q[ZP_LOADER_TYPE] == q[ZP_LOADER_TYPE..ZP_LOADER_TYPE + 1][0];
  }

  lemma LoadLeaves(p: seq<byte>, r: seq<byte>, q: seq<byte>, image: seq<byte>, cmdline: uint64)
    requires |p| == |r| == |q| == PAGE_SIZE && |image| >= 1024
    requires Headed(p, r, image, cmdline) && Defaulted(r, q)
    ensures Loaded(p, q, image, cmdline)
  {
    assert q[ZP_CMDLINE..ZP_CMDLINE + 4] == r[ZP_CMDLINE..ZP_CMDLINE + 4];
    LowCarries(cmdline);
  }

  // --- the stores themselves, in place ---

  /** k->zeropage; log is the history of the stores since the page was zeroed. */
  class ZeroPageBuffer {
    const page: array<byte>
    ghost var log: seq<Write>

    ghost predicate Valid()
      reads this, page
    {
      page.Length == PAGE_SIZE && AllFit(log) && page[..] == Apply(Zeros(), log)
    }

    /** The allocated page after ZeroMem. */
    constructor ()
      ensures Valid() && log == [] && fresh(page)
    {
      page := new byte[PAGE_SIZE](_ => 0);
      log := [];
      new;
      assert page[..] == Zeros();
    }

    method Copy(off: nat, data: seq<byte>)
      requires Valid() && off + |data| <= PAGE_SIZE
      modifies this, page
      ensures Valid() && log == old(log) + [Write(off, data)]
      ensures page[..] == Splice(old(page[..]), off, data)
    {
      Memcpy(page, off, data);
      log := log + [Write(off, data)];
      assert log[..|log| - 1] == old(log);
    }

    /** ZP32(page, off) = v */
    method Store(off: nat, v: uint32)
      requires Valid() && off + 4 <= PAGE_SIZE
      modifies this, page
      ensures Valid() && log == old(log) + [Store32(off, v)]
    {
      Copy(off, LittleEndian(v, 4));
    }

    /** The zero-page part of load_kernel, for an image that passed its checks. */
    method LoadKernel(image: array<byte>, cmdline: uint64)
      requires Valid() && image.Length >= 1024 && page != image
      modifies this, page
      ensures Valid() && log == old(log) + LoadWrites(image[..], cmdline)
      ensures Loaded(old(page[..]), page[..], image[..], cmdline)
    {
      LoadHeader(image, cmdline);
      ghost var r := page[..];
      LoadDefaults();
      Assoc(old(log), HeaderWrites(old(image[..]), cmdline), DefaultWrites());
      LoadLeaves(old(page[..]), r, page[..], image[..], cmdline);
    }

    method LoadHeader(image: array<byte>, cmdline: uint64)
      requires Valid() && image.Length >= 1024 && page != image
      modifies this, page
      ensures Valid() && log == old(log) + HeaderWrites(image[..], cmdline)
      ensures Headed(old(page[..]), page[..], image[..], cmdline)
    {
      var setupEnd := ZP_JUMP + image[ZP_JUMP + 1];
      ghost var header := image[..][ZP_SETUP..setupEnd];
      assert image[ZP_SETUP..setupEnd] == header;
      Copy(ZP_SETUP, image[ZP_SETUP..setupEnd]);
      Copy(ZP_CMDLINE, LittleEndian(Low32(cmdline), 4));
      HeaderLeaves(old(page[..]), image[..], cmdline, header, LittleEndian(Low32(cmdline), 4), page[..]);
    }

    method LoadDefaults()
      requires Valid()
      modifies this, page
      ensures Valid() && log == old(log) + DefaultWrites()
      ensures Defaulted(old(page[..]), page[..])
    {
      Copy(ZP_RAMDISK_BASE, LittleEndian(0, 4));
      SetSizeAndType();
      Assoc(old(log), [Store32(ZP_RAMDISK_BASE, 0)], TypeWrites());
      DefaultsLeave(old(page[..]), LittleEndian(0, 4), page[..]);
    }

    method SetSizeAndType()
      requires Valid()
      modifies this, page
      ensures Valid() && log == old(log) + TypeWrites()
      ensures page[..] == Splice(Splice(old(page[..]), ZP_RAMDISK_SIZE, LittleEndian(0, 4)), ZP_LOADER_TYPE, [0xFF])
    {
      Copy(ZP_RAMDISK_SIZE, LittleEndian(0, 4));
      Copy(ZP_LOADER_TYPE, [0xFF]);
    }

    /** The fields boot_kernel stores before the ramdisk. */
    method StoreFields(a: Args)
      requires Valid()
      modifies this, page
      ensures Valid() && log == old(log) + BootWrites(a)
    {
      StoreRoot(a);
      StoreFramebuffer(a);
      Assoc(old(log), RootWrites(a), FramebufferWrites(a));
    }

    method StoreFramebuffer(a: Args)
      requires Valid()
      modifies this, page
      ensures Valid() && log == old(log) + FramebufferWrites(a)
    {
      StoreMode(a);
      StoreFormat();
      Assoc(old(log), ModeWrites(a), FormatWrites());
    }

    method StoreRoot(a: Args)
      requires Valid()
      modifies this, page
      ensures Valid() && log == old(log) + RootWrites(a)
    {
      StoreTwo(ZP_EXTRA_MAGIC, ZP_MAGIC_VALUE, ZP_ACPI_RSD, a.acpi);
    }

    method StoreTwo(off: nat, v: uint32, off': nat, v': uint32)
      requires Valid() && off + 4 <= PAGE_SIZE && off' + 4 <= PAGE_SIZE
      modifies this, page
      ensures Valid() && log == old(log) + [Store32(off, v), Store32(off', v')]
    {
      Store(off, v);
      Store(off', v');
    }

    method StoreMode(a: Args)
      requires Valid()
      modifies this, page
      ensures Valid() && log == old(log) + ModeWrites(a)
    {
      StoreTwo(ZP_FB_BASE, Low32(a.fbBase), ZP_FB_WIDTH, a.width);
      StoreTwo(ZP_FB_HEIGHT, a.height, ZP_FB_STRIDE, a.stride);
      Assoc(old(log), ModeWrites(a)[..2], ModeWrites(a)[2..]);
    }

    method StoreFormat()
      requires Valid()
      modifies this, page
      ensures Valid() && log == old(log) + FormatWrites()
    {
      StoreTwo(ZP_FB_FORMAT, 4, ZP_FB_REGBASE, 0);
      Store(ZP_FB_SIZE, 256 * 1024 * 1024);
    }

    method StoreRamdisk(a: Args)
      requires Valid()
      modifies this, page
      ensures Valid() && log == old(log) + RamdiskWrites(a)
    {
      if a.ramdisk.Some? && a.ramdisk.value.1 != 0 {
        StoreTwo(ZP_RAMDISK_BASE, Low32(a.ramdisk.value.0), ZP_RAMDISK_SIZE, Low32(a.ramdisk.value.1));
      }
    }

    method StoreBoot(a: Args)
      requires Valid()
      modifies this, page
      ensures Valid() && log == old(log) + (BootWrites(a) + RamdiskWrites(a))
    {
      StoreFields(a);
      StoreRamdisk(a);
      Assoc(old(log), BootWrites(a), RamdiskWrites(a));
    }

    /** install_memmap: the packed entries and their count, for a table that was built. */
    method InstallMemmap(memmap: array<Entry>, count: nat)
      requires Valid() && count < TABLE_SIZE && count <= memmap.Length
      modifies this, page
      ensures Valid() && log == old(log) + MemmapWrites(memmap[..count])
      ensures Installed(old(page[..]), page[..], memmap[..count])
    {
      var table := EncodeTable(memmap[..count]);
      CopyTable(table, count);
      InstallLeaves(old(page[..]), memmap[..count], table, page[..]);
    }

    method CopyTable(table: seq<byte>, count: nat)
      requires Valid() && count < TABLE_SIZE && |table| == 20 * count
      modifies this, page
      ensures Valid() && log == old(log) + [Write(ZP_E820_TABLE, table), Write(ZP_E820_COUNT, [count])]
      ensures page[..] == Splice(Splice(old(page[..]), ZP_E820_TABLE, table), ZP_E820_COUNT, [count])
    {
      Copy(ZP_E820_TABLE, table);
      Copy(ZP_E820_COUNT, [count]);
    }

    /** load_kernel and boot_kernel on the zeroed page, with a table of n entries. */
    method BootKernel(image: array<byte>, a: Args, e820table: array<Entry>, n: nat)
      requires Valid() && log == [] && image.Length >= 1024 && page != image
      requires n < TABLE_SIZE <= e820table.Length
      modifies this, page
      ensures page[..] == FinalPage(image[..], a, e820table[..n])
    {
      LoadKernel(image, a.cmdline);
      assert log == LoadWrites(image[..], a.cmdline);
      FinishPage(image[..], a, e820table, n);
    }

    /** boot_kernel on a page that load_kernel has filled. */
    method FinishPage(ghost image: seq<byte>, a: Args, e820table: array<Entry>, n: nat)
      requires Valid() && |image| >= 1024 && log == LoadWrites(image, a.cmdline)
      requires n < TABLE_SIZE <= e820table.Length
      modifies this, page
      ensures page[..] == FinalPage(image, a, e820table[..n])
    {
      StoreBoot(a);
      InstallMemmap(e820table, n);
      Finished(image, a, e820table[..n], log, page[..]);
    }
  }
}
