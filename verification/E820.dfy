/** The UEFI memory map turned into an E820 table (src/osboot.c). */
module E820 {
  import opened Bytes

  const E820_IGNORE: uint32 := 0
  const E820_RAM: uint32 := 1
  const E820_RESERVED: uint32 := 2
  const E820_ACPI: uint32 := 3
  const E820_NVS: uint32 := 4
  const E820_UNUSABLE: uint32 := 5

  const TABLE_SIZE: nat := 128

  /** EFI_MEMORY_DESCRIPTOR: Type, PhysicalStart, NumberOfPages. */
  datatype Descriptor = Descriptor(kind: uint32, start: uint64, pages: uint64)

  datatype Entry = Entry(addr: uint64, size: uint64, kind: uint32)

  /** e820type, built without WITH_RUNTIME_SERVICES. */
  function E820Type(efi: uint32): uint32 {
    match efi
    case 0 => E820_RESERVED     // EfiReservedMemoryType
    case 13 => E820_RESERVED    // EfiPalCode
    case 5 => E820_RAM          // EfiRuntimeServicesCode
    case 6 => E820_RAM          // EfiRuntimeServicesData
    case 9 => E820_ACPI         // EfiACPIReclaimMemory
    case 10 => E820_NVS         // EfiACPIMemoryNVS
    case 1 => E820_RAM          // EfiLoaderCode
    case 2 => E820_RAM          // EfiLoaderData
    case 3 => E820_RAM          // EfiBootServicesCode
    case 4 => E820_RAM          // EfiBootServicesData
    case 7 => E820_RAM          // EfiConventionalMemory
    case 11 => E820_IGNORE      // EfiMemoryMappedIO
    case 12 => E820_IGNORE      // EfiMemoryMappedIOPortSpace
    case _ => if efi >= 0x80000000 then E820_RAM else E820_UNUSABLE
  }

  /** 64-bit wrap-around. */
  function Wrap(x: nat): uint64 {
    x % 0x1_0000_0000_0000_0000
  }

  /** Which UEFI types end up as which E820 type, OS-defined types included. */
  lemma TypeClasses(efi: uint32)
    ensures E820Type(efi) == 1 <==> 1 <= efi <= 7 || efi >= 0x80000000
    ensures E820Type(efi) == 2 <==> efi == 0 || efi == 13
    ensures E820Type(efi) == 3 <==> efi == 9
    ensures E820Type(efi) == 4 <==> efi == 10
    ensures E820Type(efi) == 0 <==> efi == 11 || efi == 12
    ensures E820Type(efi) == 5 <==> efi == 8 || 14 <= efi < 0x80000000
  {
  }

  function Size(d: Descriptor): uint64 {
    Wrap(d.pages as int * 4096)
  }

  function End(e: Entry): nat {
    e.addr as int + e.size as int
  }

  function DescEnd(d: Descriptor): nat {
    d.start as int + d.pages as int * 4096
  }

  /** The descriptor continues the last entry: same type, and it starts where the entry ends. */
  predicate Continues(es: seq<Entry>, d: Descriptor) {
    && es != []
    && es[|es| - 1].kind == E820Type(d.kind)
    && Wrap(End(es[|es| - 1])) == d.start
  }

  /** One turn of the loop, for a table without size limit. */
  function Extend(es: seq<Entry>, d: Descriptor): seq<Entry> {
    if E820Type(d.kind) == E820_IGNORE then es
    else if Continues(es, d) then es[..|es| - 1] + [Merged(es[|es| - 1], d)]
    else es + [Fresh(d)]
  }

  /** The entry with the descriptor's pages added. */
  function Merged(e: Entry, d: Descriptor): Entry {
    e.(size := Wrap(e.size as int + Size(d)))
  }

  function Fresh(d: Descriptor): Entry {
    Entry(d.start, Size(d), E820Type(d.kind))
  }

  function Translate(ds: seq<Descriptor>): seq<Entry> {
    if ds == [] then [] else Extend(Translate(ds[..|ds| - 1]), ds[|ds| - 1])
  }

  lemma {:induction false} TranslateGrows(ds: seq<Descriptor>, i: nat)
    requires i <= |ds|
    ensures |Translate(ds[..i])| <= |Translate(ds)|
    decreases |ds|
  {
    if i < |ds| {
      assert ds[..|ds| - 1][..i] == ds[..i];
      TranslateGrows(ds[..|ds| - 1], i);
    } else {
      assert ds[..i] == ds;
    }
  }

  /** The body of the loop on the table in place. */
  method AddDescriptor(entry: array<Entry>, n: nat, d: Descriptor) returns (m: nat)
    requires entry.Length == TABLE_SIZE && n < TABLE_SIZE
    modifies entry
    ensures n <= m <= n + 1 && entry[..m] == Extend(old(entry[..n]), d)
  {
    ghost var es := entry[..n];
    if E820Type(d.kind) == E820_IGNORE {
      return n;
    }
    if n > 0 && entry[n - 1].kind == E820Type(d.kind) {
      if Wrap(End(entry[n - 1])) == d.start {
        assert Continues(es, d);
        SetLast(entry, n, Merged(entry[n - 1], d));
        return n;
      }
    }
    assert !Continues(es, d);
    entry[n] := Fresh(d);
    assert entry[..n + 1] == es + [Fresh(d)];
    return n + 1;
  }

  method SetLast(entry: array<Entry>, n: nat, e: Entry)
    requires 0 < n <= entry.Length
    modifies entry
    ensures entry[..n] == old(entry[..n - 1]) + [e]
  {
    entry[n - 1] := e;
  }

  /**
   * process_memory_map: descs is what GetMemoryMap left in the scratch buffer, None if it failed
   * or did not fit. The table is filled in place; -1 is returned as soon as 128 entries are used.
   */
  method ProcessMemoryMap(descs: Option<seq<Descriptor>>, entry: array<Entry>) returns (r: int)
    requires entry.Length == TABLE_SIZE
    modifies entry
    ensures r == -1 <==> descs.None? || |Translate(descs.value)| >= 128
    ensures r != -1 ==> 0 <= r < 128 && entry[..r] == Translate(descs.value)
  {
    if descs.None? {
      return -1;
    }
    var ds := descs.value;
    var n := 0;
    var i := 0;
    while i < |ds|
      invariant 0 <= i <= |ds| && 0 <= n < TABLE_SIZE
      invariant entry[..n] == Translate(ds[..i])
    {
      assert ds[..i + 1][..i] == ds[..i];
      n := AddDescriptor(entry, n, ds[i]);
      i := i + 1;
      if n == TABLE_SIZE {
        TranslateGrows(ds, i);
        return -1;
      }
    }
    assert ds[..i] == ds;
    return n;
  }
}
