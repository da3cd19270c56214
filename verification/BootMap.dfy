/** From the firmware's memory map to what the kernel reads in the zero page (src/osboot.c). */
module BootMap {
  import opened Bytes
  import opened E820
  import opened E820Meaning
  import opened ZeroPage

  /** The kernel's view: entry i of the page has this type and contains the address. */
  predicate PageEntryIn(p: seq<byte>, i: nat, x: int, kind: uint32)
    requires |p| == PAGE_SIZE && i < TABLE_SIZE
  {
    var (addr, size, k) := ReadEntry(p, ZP_E820_TABLE + 20 * i);
    k == kind && addr <= x < addr + size
  }

  /** One of the entries that the page's count announces contains the address. */
  predicate PageCovers(p: seq<byte>, x: int, kind: uint32)
    requires |p| == PAGE_SIZE && p[ZP_E820_COUNT] < TABLE_SIZE
  {
    exists i :: 0 <= i < p[ZP_E820_COUNT] && PageEntryIn(p, i, x, kind)
  }

  lemma PageMeansTable(p: seq<byte>, es: seq<Entry>, x: int, kind: uint32)
    requires |p| == PAGE_SIZE && |es| < TABLE_SIZE && p[ZP_E820_COUNT] == |es|
    requires forall i :: 0 <= i < |es| ==> ReadEntry(p, ZP_E820_TABLE + 20 * i) == (es[i].addr, es[i].size, es[i].kind)
    ensures PageCovers(p, x, kind) <==> Covers(es, x, kind)
  {
    forall i: nat | i < |es| ensures PageEntryIn(p, i, x, kind) <==> In(es[i], x, kind) {
      assert ReadEntry(p, ZP_E820_TABLE + 20 * i) == (es[i].addr, es[i].size, es[i].kind);
    }
    if Covers(es, x, kind) {
      var i :| 0 <= i < |es| && In(es[i], x, kind);
      assert PageEntryIn(p, i, x, kind);
    }
  }

  /**
   * The kernel sees the firmware's memory: for every map that does not wrap and whose table fits,
   * the table the kernel decodes from the finished page covers an address with a type exactly
   * when a descriptor of the map does, whatever else is stored on the page.
   */
  lemma KernelSeesMemoryMap(image: seq<byte>, a: Args, ds: seq<Descriptor>, x: int, kind: uint32)
    requires |image| >= 1024 && AllNoWrap(ds) && |Translate(ds)| < TABLE_SIZE && kind != E820_IGNORE
    ensures var p := FinalPage(image, a, Translate(ds));
            p[ZP_E820_COUNT] < TABLE_SIZE && (PageCovers(p, x, kind) <==> DescCovers(ds, x, kind))
  {
    var es := Translate(ds);
    var p := FinalPage(image, a, es);
    CountReadsBack(image, a, es);
    forall i | 0 <= i < |es|
      ensures ReadEntry(p, ZP_E820_TABLE + 20 * i) == (es[i].addr, es[i].size, es[i].kind)
    {
      TableReadsBack(image, a, es, i);
    }
    PageMeansTable(p, es, x, kind);
    MeaningPreserved(ds, x, kind);
  }
}
