/** What the E820 table says: coverage, byte totals and its canonical form. */
module E820Meaning {
  import opened Bytes
  import opened E820

  /** The region ends below 2^64, so no 64-bit sum wraps. */
  predicate NoWrap(d: Descriptor) {
    DescEnd(d) < 0x1_0000_0000_0000_0000
  }

  predicate AllNoWrap(ds: seq<Descriptor>) {
    forall i :: 0 <= i < |ds| ==> NoWrap(ds[i])
  }

  predicate EntriesFit(es: seq<Entry>) {
    forall i :: 0 <= i < |es| ==> End(es[i]) < 0x1_0000_0000_0000_0000
  }

  predicate In(e: Entry, a: int, kind: uint32) {
    e.kind == kind && e.addr <= a < End(e)
  }

  predicate DescIn(d: Descriptor, a: int, kind: uint32) {
    E820Type(d.kind) == kind && d.start <= a < DescEnd(d)
  }

  /** Address a lies in an entry of this type. */
  predicate Covers(es: seq<Entry>, a: int, kind: uint32) {
    exists i :: 0 <= i < |es| && In(es[i], a, kind)
  }

  predicate DescCovers(ds: seq<Descriptor>, a: int, kind: uint32) {
    exists i :: 0 <= i < |ds| && DescIn(ds[i], a, kind)
  }

  lemma WrapId(x: nat)
    requires x < 0x1_0000_0000_0000_0000
    ensures Wrap(x) == x
  {
  }

  /** The last entry as the loop leaves it, when nothing wraps. */
  lemma ExtendShape(es: seq<Entry>, d: Descriptor)
    requires EntriesFit(es) && NoWrap(d)
    ensures EntriesFit(Extend(es, d))
    ensures E820Type(d.kind) != E820_IGNORE && Continues(es, d) ==>
              var n := |es| - 1; var last := es[n]; var merged := Extend(es, d)[n];
              && Extend(es, d) == es[..n] + [merged]
              && merged.addr == last.addr && merged.kind == last.kind == E820Type(d.kind)
              && End(last) == d.start && End(merged) == DescEnd(d)
    ensures E820Type(d.kind) != E820_IGNORE && !Continues(es, d) ==>
              var e := Extend(es, d)[|es|];
              && Extend(es, d) == es + [e]
              && e.addr == d.start && e.kind == E820Type(d.kind) && End(e) == DescEnd(d)
  {
    WrapId(d.pages as int * 4096);
    if E820Type(d.kind) != E820_IGNORE && es != [] {
      var last := es[|es| - 1];
      WrapId(End(last));
      if Continues(es, d) {
        WrapId(last.size as int + Size(d));
      }
    }
  }

  lemma {:induction false} TranslateFits(ds: seq<Descriptor>)
    requires AllNoWrap(ds)
    ensures EntriesFit(Translate(ds))
  {
    if ds != [] {
      TranslateFits(ds[..|ds| - 1]);
      ExtendShape(Translate(ds[..|ds| - 1]), ds[|ds| - 1]);
    }
  }

  // --- meaning ---

  lemma CoversAppend(es: seq<Entry>, e: Entry, a: int, kind: uint32)
    ensures Covers(es + [e], a, kind) <==> Covers(es, a, kind) || In(e, a, kind)
  {
    if Covers(es, a, kind) {
      var i :| 0 <= i < |es| && In(es[i], a, kind);
      assert (es + [e])[i] == es[i];
    }
    if In(e, a, kind) {
      assert (es + [e])[|es|] == e;
    }
  }

  lemma CoversSplit(es: seq<Entry>, a: int, kind: uint32)
    requires es != []
    ensures Covers(es, a, kind) <==> Covers(es[..|es| - 1], a, kind) || In(es[|es| - 1], a, kind)
  {
    CoversAppend(es[..|es| - 1], es[|es| - 1], a, kind);
    assert es == es[..|es| - 1] + [es[|es| - 1]];
  }

  lemma DescCoversSplit(ds: seq<Descriptor>, a: int, kind: uint32)
    requires ds != []
    ensures DescCovers(ds, a, kind) <==> DescCovers(ds[..|ds| - 1], a, kind) || DescIn(ds[|ds| - 1], a, kind)
  {
    var p := ds[..|ds| - 1];
    if DescCovers(p, a, kind) {
      var i :| 0 <= i < |p| && DescIn(p[i], a, kind);
      assert ds[i] == p[i];
    }
  }

  lemma ExtendCovers(es: seq<Entry>, d: Descriptor, a: int, kind: uint32)
    requires EntriesFit(es) && NoWrap(d) && kind != E820_IGNORE
    ensures Covers(Extend(es, d), a, kind) <==> Covers(es, a, kind) || DescIn(d, a, kind)
  {
    ExtendShape(es, d);
    if E820Type(d.kind) != E820_IGNORE {
      if Continues(es, d) {
        var n := |es| - 1;
        CoversSplit(es, a, kind);
        CoversAppend(es[..n], Extend(es, d)[n], a, kind);
      } else {
        CoversAppend(es, Extend(es, d)[|es|], a, kind);
      }
    }
  }

  /**
   * Meaning preserved: for descriptors in any order that do not wrap, an address is covered by
   * an entry of a type exactly when it is covered by a descriptor of that type.
   */
  lemma {:induction false} MeaningPreserved(ds: seq<Descriptor>, a: int, kind: uint32)
    requires AllNoWrap(ds) && kind != E820_IGNORE
    ensures Covers(Translate(ds), a, kind) <==> DescCovers(ds, a, kind)
  {
    if ds != [] {
      var p := ds[..|ds| - 1];
      MeaningPreserved(p, a, kind);
      TranslateFits(p);
      ExtendCovers(Translate(p), ds[|ds| - 1], a, kind);
      DescCoversSplit(ds, a, kind);
    }
  }

  function BytesOf(es: seq<Entry>, kind: uint32): nat {
    if es == [] then 0
    else BytesOf(es[..|es| - 1], kind) + (if es[|es| - 1].kind == kind then es[|es| - 1].size else 0)
  }

  function DescBytes(ds: seq<Descriptor>, kind: uint32): nat {
    if ds == [] then 0
    else DescBytes(ds[..|ds| - 1], kind)
         + (if E820Type(ds[|ds| - 1].kind) == kind then ds[|ds| - 1].pages as int * 4096 else 0)
  }

  /** The bytes of each type are conserved through merging. */
  lemma {:induction false} BytesConserved(ds: seq<Descriptor>, kind: uint32)
    requires AllNoWrap(ds) && kind != E820_IGNORE
    ensures BytesOf(Translate(ds), kind) == DescBytes(ds, kind)
  {
    if ds != [] {
      var p := ds[..|ds| - 1];
      var d := ds[|ds| - 1];
      var es := Translate(p);
      BytesConserved(p, kind);
      TranslateFits(p);
      ExtendShape(es, d);
      if E820Type(d.kind) != E820_IGNORE {
        var r := Extend(es, d);
        assert r[..|r| - 1] == if Continues(es, d) then es[..|es| - 1] else es;
      }
    }
  }

  // --- maps that wrap ---

  /** One turn of the loop adds the descriptor's bytes, up to a multiple of 2^64. */
  lemma ExtendBytes(es: seq<Entry>, d: Descriptor, kind: uint32) returns (k: nat)
    requires kind != E820_IGNORE
    ensures BytesOf(es, kind) + (if E820Type(d.kind) == kind then d.pages as int * 4096 else 0)
            == BytesOf(Extend(es, d), kind) + 0x1_0000_0000_0000_0000 * k
  {
    k := 0;
    if E820Type(d.kind) != E820_IGNORE {
      if Continues(es, d) {
        BytesAppend(es[..|es| - 1], Merged(es[|es| - 1], d), kind);
      } else {
        BytesAppend(es, Fresh(d), kind);
      }
      if E820Type(d.kind) == kind {
        k := if Continues(es, d) then MergedCarry(es[|es| - 1], d) else FreshCarry(d);
      }
    }
  }

  lemma BytesAppend(es: seq<Entry>, e: Entry, kind: uint32)
    ensures BytesOf(es + [e], kind) == BytesOf(es, kind) + if e.kind == kind then e.size else 0
  {
    assert (es + [e])[..|es|] == es;
  }

  /** What 64-bit arithmetic cuts off the size of a descriptor, in units of 2^64. */
  function FreshCarry(d: Descriptor): (k: nat)
    ensures d.pages as int * 4096 == Fresh(d).size + 0x1_0000_0000_0000_0000 * k
  {
    d.pages as int * 4096 / 0x1_0000_0000_0000_0000
  }

  function MergedCarry(e: Entry, d: Descriptor): (k: nat)
    ensures e.size as int + d.pages as int * 4096 == Merged(e, d).size + 0x1_0000_0000_0000_0000 * k
  {
    FreshCarry(d) + (e.size as int + Size(d)) / 0x1_0000_0000_0000_0000
  }

  /** For every map, wrapping or not, the bytes of each type are conserved modulo 2^64. */
  lemma {:induction false} BytesModulo(ds: seq<Descriptor>, kind: uint32) returns (k: nat)
    requires kind != E820_IGNORE
    ensures DescBytes(ds, kind) == BytesOf(Translate(ds), kind) + 0x1_0000_0000_0000_0000 * k
  {
    k := 0;
    if ds != [] {
      var i := BytesModulo(ds[..|ds| - 1], kind);
      var j := ExtendBytes(Translate(ds[..|ds| - 1]), ds[|ds| - 1], kind);
      k := i + j;
    }
  }

  lemma OneEntry(d: Descriptor, a: int)
    requires E820Type(d.kind) != E820_IGNORE
    ensures Covers(Translate([d]), a, E820Type(d.kind)) <==> d.start <= a < d.start as int + Size(d)
    ensures DescCovers([d], a, E820Type(d.kind)) <==> d.start <= a < DescEnd(d)
  {
    assert [d][..0] == [] && Translate([d]) == [Fresh(d)];
    assert [Fresh(d)][0] == Fresh(d) && [d][0] == d;
  }

  /** A descriptor on its own keeps its meaning if and only if its size fits 64 bits. */
  lemma OneDescriptor(d: Descriptor)
    requires E820Type(d.kind) != E820_IGNORE
    ensures (forall a: int :: Covers(Translate([d]), a, E820Type(d.kind)) <==> DescCovers([d], a, E820Type(d.kind)))
            <==> d.pages as int * 4096 < 0x1_0000_0000_0000_0000
  {
    forall a: int
      ensures Covers(Translate([d]), a, E820Type(d.kind)) <==> d.start <= a < d.start as int + Size(d)
      ensures DescCovers([d], a, E820Type(d.kind)) <==> d.start <= a < DescEnd(d)
    {
      OneEntry(d, a);
    }
    var last := DescEnd(d) - 1;
    assert DescCovers([d], last, E820Type(d.kind)) <==> d.start <= last < DescEnd(d);
  }

  // --- canonical form ---

  /** Sorted, disjoint, non-empty descriptors. */
  predicate SortedMap(ds: seq<Descriptor>) {
    && (forall i :: 0 <= i < |ds| ==> ds[i].pages > 0 && NoWrap(ds[i]))
    && (forall i, j :: 0 <= i < j < |ds| ==> DescEnd(ds[i]) <= ds[j].start)
  }

  predicate Disjoint(es: seq<Entry>) {
    forall i, j :: 0 <= i < j < |es| ==> End(es[i]) <= es[j].addr
  }

  predicate Mergeable(e: Entry, f: Entry) {
    e.kind == f.kind && End(e) == f.addr
  }

  predicate Unmergeable(es: seq<Entry>) {
    forall i, j :: 0 <= i < |es| && j == i + 1 && j < |es| ==> !Mergeable(es[i], es[j])
  }

  /** Sorted, disjoint, non-empty entries, no two neighbours of which could be merged. */
  predicate Canonical(es: seq<Entry>) {
    && EntriesFit(es)
    && (forall i :: 0 <= i < |es| ==> es[i].size > 0 && es[i].kind != E820_IGNORE)
    && Disjoint(es)
    && Unmergeable(es)
  }

  predicate Below(es: seq<Entry>, limit: int) {
    forall i :: 0 <= i < |es| ==> End(es[i]) <= limit
  }

  lemma AppendDisjoint(es: seq<Entry>, e: Entry)
    requires Disjoint(es) && Below(es, e.addr)
    ensures Disjoint(es + [e])
  {
    var r := es + [e];
    forall i, j | 0 <= i < j < |r| ensures End(r[i]) <= r[j].addr {
      assert r[i] == es[i];
    }
  }

  lemma AppendUnmergeable(es: seq<Entry>, e: Entry)
    requires Unmergeable(es) && (es != [] ==> !Mergeable(es[|es| - 1], e))
    ensures Unmergeable(es + [e])
  {
    var r := es + [e];
    forall i, j | 0 <= i < |r| && j == i + 1 && j < |r| ensures !Mergeable(r[i], r[j]) {
      assert r[i] == es[i];
    }
  }

  lemma AppendCanonical(es: seq<Entry>, e: Entry)
    requires Canonical(es) && Below(es, e.addr) && e.size > 0 && End(e) < 0x1_0000_0000_0000_0000
    requires e.kind != E820_IGNORE && (es != [] ==> !Mergeable(es[|es| - 1], e))
    ensures Canonical(es + [e]) && Below(es + [e], End(e))
  {
    AppendDisjoint(es, e);
    AppendUnmergeable(es, e);
  }

  lemma CanonicalInit(es: seq<Entry>)
    requires Canonical(es) && es != []
    ensures Canonical(es[..|es| - 1]) && Below(es[..|es| - 1], es[|es| - 1].addr)
    ensures |es| > 1 ==> !Mergeable(es[|es| - 2], es[|es| - 1])
  {
  }

  lemma ExtendCanonical(es: seq<Entry>, d: Descriptor)
    requires Canonical(es) && Below(es, d.start) && NoWrap(d) && d.pages > 0
    ensures Canonical(Extend(es, d)) && Below(Extend(es, d), DescEnd(d))
  {
    ExtendShape(es, d);
    if E820Type(d.kind) != E820_IGNORE {
      if Continues(es, d) {
        CanonicalInit(es);
        AppendCanonical(es[..|es| - 1], Extend(es, d)[|es| - 1]);
      } else {
        AppendCanonical(es, Extend(es, d)[|es|]);
      }
    }
  }

  lemma {:induction false} TranslateCanonical(ds: seq<Descriptor>)
    requires SortedMap(ds)
    ensures Canonical(Translate(ds))
    ensures Below(Translate(ds), if ds == [] then 0 else DescEnd(ds[|ds| - 1]))
  {
    if ds != [] {
      var p := ds[..|ds| - 1];
      TranslateCanonical(p);
      ExtendCanonical(Translate(p), ds[|ds| - 1]);
    }
  }

  ghost predicate SameMeaning(a: seq<Entry>, b: seq<Entry>) {
    forall x: int, kind: uint32 :: Covers(a, x, kind) <==> Covers(b, x, kind)
  }

  lemma FirstIsLowest(a: seq<Entry>, x: int, kind: uint32)
    requires Canonical(a) && a != [] && Covers(a, x, kind)
    ensures x >= a[0].addr && (x < End(a[0]) ==> kind == a[0].kind)
  {
    var i :| 0 <= i < |a| && In(a[i], x, kind);
    if i > 0 {
      assert End(a[0]) <= a[i].addr;
    }
  }

  lemma FirstCovers(a: seq<Entry>, x: int)
    requires a != [] && a[0].addr <= x < End(a[0])
    ensures Covers(a, x, a[0].kind)
  {
    assert In(a[0], x, a[0].kind);
  }

  /** Right behind the first entry its type stops: otherwise the neighbour could be merged. */
  lemma FirstStops(a: seq<Entry>)
    requires Canonical(a) && a != []
    ensures !Covers(a, End(a[0]), a[0].kind)
  {
    forall i | 0 <= i < |a| ensures !In(a[i], End(a[0]), a[0].kind) {
      if i > 1 {
        assert End(a[0]) <= a[1].addr && End(a[1]) <= a[i].addr;
      }
    }
  }

  lemma SameFirst(a: seq<Entry>, b: seq<Entry>)
    requires Canonical(a) && Canonical(b) && SameMeaning(a, b) && a != [] && b != []
    ensures a[0].addr == b[0].addr && a[0].kind == b[0].kind && End(a[0]) <= End(b[0])
  {
    FirstCovers(a, a[0].addr);
    FirstCovers(b, b[0].addr);
    FirstIsLowest(b, a[0].addr, a[0].kind);
    FirstIsLowest(a, b[0].addr, b[0].kind);
    if End(b[0]) < End(a[0]) {
      FirstCovers(a, End(b[0]));
      FirstStops(b);
      assert false;
    }
  }

  lemma TailCovers(a: seq<Entry>, x: int, kind: uint32)
    requires Canonical(a) && a != []
    ensures Covers(a[1..], x, kind) <==> Covers(a, x, kind) && x >= End(a[0])
  {
    if Covers(a[1..], x, kind) {
      var i :| 0 <= i < |a[1..]| && In(a[1..][i], x, kind);
      assert a[i + 1] == a[1..][i] && End(a[0]) <= a[i + 1].addr;
    }
    if Covers(a, x, kind) && x >= End(a[0]) {
      var i :| 0 <= i < |a| && In(a[i], x, kind);
      assert a[1..][i - 1] == a[i];
    }
  }

  lemma CanonicalTail(a: seq<Entry>)
    requires Canonical(a) && a != []
    ensures Canonical(a[1..])
  {
  }

  lemma TailMeaning(a: seq<Entry>, b: seq<Entry>)
    requires Canonical(a) && Canonical(b) && SameMeaning(a, b) && a != [] && b != [] && a[0] == b[0]
    ensures SameMeaning(a[1..], b[1..])
  {
    forall x: int, kind: uint32 ensures Covers(a[1..], x, kind) <==> Covers(b[1..], x, kind) {
      TailCovers(a, x, kind);
      TailCovers(b, x, kind);
    }
  }

  lemma EmptyMeaning(a: seq<Entry>, b: seq<Entry>)
    requires Canonical(b) && SameMeaning(a, b) && a == []
    ensures b == []
  {
    if b != [] {
      FirstCovers(b, b[0].addr);
      assert false;
    }
  }

  /** There is only one canonical table with a given meaning. */
  lemma {:induction false} CanonicalUnique(a: seq<Entry>, b: seq<Entry>)
    requires Canonical(a) && Canonical(b) && SameMeaning(a, b)
    ensures a == b
    decreases |a|
  {
    if a == [] {
      EmptyMeaning(a, b);
    } else if b == [] {
      EmptyMeaning(b, a);
    } else {
      SameFirst(a, b);
      SameFirst(b, a);
      TailMeaning(a, b);
      CanonicalTail(a);
      CanonicalTail(b);
      CanonicalUnique(a[1..], b[1..]);
      assert a == [a[0]] + a[1..] && b == [b[0]] + b[1..];
    }
  }

  /** The map and the table say the same about every address and every type but IGNORE. */
  ghost predicate Describes(ds: seq<Descriptor>, es: seq<Entry>) {
    forall x: int, kind: uint32 :: kind != E820_IGNORE ==> (Covers(es, x, kind) <==> DescCovers(ds, x, kind))
  }

  lemma NoIgnored(es: seq<Entry>, x: int)
    requires Canonical(es)
    ensures !Covers(es, x, E820_IGNORE)
  {
  }

  /**
   * Canonical form: for sorted, disjoint, non-empty descriptors the table is canonical, and it is
   * the only canonical table that describes the map. So the loop fails exactly when that table
   * would need 128 or more entries.
   */
  lemma CanonicalForm(ds: seq<Descriptor>, es: seq<Entry>)
    requires SortedMap(ds)
    ensures Canonical(Translate(ds))
    ensures Canonical(es) && Describes(ds, es) <==> es == Translate(ds)
  {
    var t := Translate(ds);
    TranslateCanonical(ds);
    forall x: int, kind: uint32 | kind != E820_IGNORE
      ensures Covers(t, x, kind) <==> DescCovers(ds, x, kind)
    {
      MeaningPreserved(ds, x, kind);
    }
    if Canonical(es) && Describes(ds, es) {
      forall x: int, kind: uint32 ensures Covers(es, x, kind) <==> Covers(t, x, kind) {
        NoIgnored(es, x);
        NoIgnored(t, x);
      }
      CanonicalUnique(es, t);
    }
  }

  /** Two maps that describe memory alike give the same table, however the firmware cut them up. */
  lemma TableDependsOnMeaning(ds: seq<Descriptor>, ds': seq<Descriptor>)
    requires SortedMap(ds) && SortedMap(ds')
    requires forall x: int, kind: uint32 ::
               kind != E820_IGNORE ==> (DescCovers(ds, x, kind) <==> DescCovers(ds', x, kind))
    ensures Translate(ds) == Translate(ds')
  {
    CanonicalForm(ds, Translate(ds));
    CanonicalForm(ds', Translate(ds));
  }

  /** d cut after n of its pages. */
  function Cut(d: Descriptor, n: nat): seq<Descriptor>
    requires 0 < n < d.pages && NoWrap(d)
  {
    [Descriptor(d.kind, d.start, n), Descriptor(d.kind, d.start as int + n * 4096, d.pages - n)]
  }

  lemma CutCovers(p: seq<Descriptor>, d: Descriptor, n: nat, s: seq<Descriptor>, x: int, kind: uint32)
    requires 0 < n < d.pages && NoWrap(d)
    ensures DescCovers(p + [d] + s, x, kind) <==> DescCovers(p + Cut(d, n) + s, x, kind)
  {
    var ds, cs := p + [d] + s, p + Cut(d, n) + s;
    if DescCovers(ds, x, kind) {
      var i :| 0 <= i < |ds| && DescIn(ds[i], x, kind);
      var j := if i < |p| then i else if i > |p| then i + 1 else if x < d.start as int + n * 4096 then i else i + 1;
      assert DescIn(cs[j], x, kind);
    }
    if DescCovers(cs, x, kind) {
      var j :| 0 <= j < |cs| && DescIn(cs[j], x, kind);
      var i := if j <= |p| then j else j - 1;
      assert DescIn(ds[i], x, kind);
    }
  }

  /** Splitting a descriptor never changes the table. */
  lemma SplitInvariance(p: seq<Descriptor>, d: Descriptor, n: nat, s: seq<Descriptor>)
    requires SortedMap(p + [d] + s) && 0 < n < d.pages && NoWrap(d)
    ensures Translate(p + Cut(d, n) + s) == Translate(p + [d] + s)
  {
    var ds, cs := p + [d] + s, p + Cut(d, n) + s;
    CutSorted(p, d, n, s);
    forall x: int, kind: uint32 ensures DescCovers(ds, x, kind) <==> DescCovers(cs, x, kind) {
      CutCovers(p, d, n, s, x, kind);
    }
    TableDependsOnMeaning(cs, ds);
  }

  lemma CutSorted(p: seq<Descriptor>, d: Descriptor, n: nat, s: seq<Descriptor>)
    requires SortedMap(p + [d] + s) && 0 < n < d.pages && NoWrap(d)
    ensures SortedMap(p + Cut(d, n) + s)
  {
    var ds, cs := p + [d] + s, p + Cut(d, n) + s;
    forall j | 0 <= j < |cs|
      ensures var k := Uncut(|p|, j);
              && 0 <= k < |ds| && cs[j].pages > 0
              && ds[k].start <= cs[j].start && DescEnd(cs[j]) <= DescEnd(ds[k])
    {
      if j == |p| || j == |p| + 1 {
        assert cs[j] == Cut(d, n)[j - |p|] && ds[|p|] == d;
      } else {
        assert cs[j] == ds[Uncut(|p|, j)];
      }
    }
    forall i, j | 0 <= i < j < |cs| ensures DescEnd(cs[i]) <= cs[j].start {
      if Uncut(|p|, i) < Uncut(|p|, j) {
        assert DescEnd(ds[Uncut(|p|, i)]) <= ds[Uncut(|p|, j)].start;
      } else {
        assert cs[i] == Cut(d, n)[0] && cs[j] == Cut(d, n)[1];
      }
    }
  }

  /** Where descriptor j of the cut map comes from, when descriptor n was cut. */
  function Uncut(n: nat, j: nat): nat {
    if j <= n then j else j - 1
  }
}
