/** The physical frame bitmap of src/kernel/mm/pmm.c. */
module FrameAllocator {
  import opened Words
  import FrameSets

  type Byte = bv8

  datatype MemoryMapEntry = MemoryMapEntry(base: Word, length: Word, kind: nat)

  const RESERVED_PAGES: nat := 256 // the first 1 MB
  const USABLE: nat := 1

  // ------------------------------------------------------------------- bits

  function Mask(k: nat): Byte
    requires k < 8
  {
    (1 as Byte) << k
  }

  /** Bit k of one byte; bits past the end of the bitmap count as set. */
  predicate BitAt(b: seq<Byte>, byte: nat, k: nat)
    requires k < 8
  {
    byte >= |b| || b[byte] & Mask(k) != 0
  }

  /** Bit i of the bitmap. */
  predicate Bit(b: seq<Byte>, i: nat) {
    BitAt(b, i / 8, i % 8)
  }

  lemma MaskTable(k: nat)
    requires k < 8
    ensures Mask(k) == [1 as Byte, 2, 4, 8, 16, 32, 64, 128][k]
  {
  }

  lemma MaskBits(b: Byte, k: nat, l: nat)
    requires k < 8 && l < 8
    ensures (b | Mask(k)) & Mask(l) != 0 <==> k == l || b & Mask(l) != 0
    ensures (b & !Mask(k)) & Mask(l) != 0 <==> k != l && b & Mask(l) != 0
    ensures (0xFF as Byte) & Mask(l) != 0
  {
    MaskTable(k);
    MaskTable(l);
  }

  function SetAt(b: seq<Byte>, byte: nat, k: nat): (r: seq<Byte>)
    requires byte < |b| && k < 8
    ensures |r| == |b|
  {
    b[byte := b[byte] | Mask(k)]
  }

  function ClearAt(b: seq<Byte>, byte: nat, k: nat): (r: seq<Byte>)
    requires byte < |b| && k < 8
    ensures |r| == |b|
  {
    b[byte := b[byte] & !Mask(k)]
  }

  function Set(b: seq<Byte>, i: nat): (r: seq<Byte>)
    requires i / 8 < |b|
    ensures |r| == |b|
  {
    SetAt(b, i / 8, i % 8)
  }

  function Clear(b: seq<Byte>, i: nat): (r: seq<Byte>)
    requires i / 8 < |b|
    ensures |r| == |b|
  {
    ClearAt(b, i / 8, i % 8)
  }

  lemma OneBitAt(b: seq<Byte>, i: nat, k: nat, j: nat, l: nat)
    requires i < |b| && k < 8 && l < 8
    ensures BitAt(SetAt(b, i, k), j, l) <==> (j == i && l == k) || BitAt(b, j, l)
    ensures BitAt(ClearAt(b, i, k), j, l) <==> !(j == i && l == k) && BitAt(b, j, l)
  {
    if j == i {
      MaskBits(b[i], k, l);
      assert SetAt(b, i, k)[j] == b[i] | Mask(k) && ClearAt(b, i, k)[j] == b[i] & !Mask(k);
    } else if j < |b| {
      assert SetAt(b, i, k)[j] == b[j] == ClearAt(b, i, k)[j];
    }
  }

  lemma SameBit(i: nat, j: nat)
    ensures i / 8 == j / 8 && i % 8 == j % 8 <==> i == j
  {
    assert i == 8 * (i / 8) + i % 8 && j == 8 * (j / 8) + j % 8;
  }

  /** Updating one bit leaves every other bit alone. */
  lemma OneBit(b: seq<Byte>, i: nat, j: nat)
    requires i / 8 < |b|
    ensures Bit(Set(b, i), j) <==> j == i || Bit(b, j)
    ensures Bit(Clear(b, i), j) <==> j != i && Bit(b, j)
  {
    hide BitAt, SetAt, ClearAt;
    SameBit(i, j);
    OneBitAt(b, i / 8, i % 8, j / 8, j % 8);
  }

  /** The frames below `total` whose bit is set. */
  function UsedIn(b: seq<Byte>, total: nat): (s: set<nat>)
    ensures forall i: nat :: i in s <==> i < total && Bit(b, i)
    ensures FrameSets.Below(s, total)
  {
    set i: nat | i in FrameSets.Range(total) && Bit(b, i)
  }

  /** The bits of the last byte beyond the last frame stay set. */
  ghost predicate PaddingSet(b: seq<Byte>, total: nat) {
    forall i: nat | total <= i :: Bit(b, i)
  }

  lemma UsedAfterSet(b: seq<Byte>, total: nat, i: nat)
    requires i / 8 < |b|
    ensures UsedIn(Set(b, i), total) == UsedIn(b, total) + if i < total then {i} else {}
    ensures PaddingSet(b, total) ==> PaddingSet(Set(b, i), total)
  {
    forall j: nat
      ensures Bit(Set(b, i), j) <==> j == i || Bit(b, j)
    {
      OneBit(b, i, j);
    }
  }

  lemma UsedAfterClear(b: seq<Byte>, total: nat, i: nat)
    requires i / 8 < |b|
    ensures UsedIn(Clear(b, i), total) == UsedIn(b, total) - {i}
    ensures PaddingSet(b, total) && i < total ==> PaddingSet(Clear(b, i), total)
  {
    forall j: nat
      ensures Bit(Clear(b, i), j) <==> j != i && Bit(b, j)
    {
      OneBit(b, i, j);
    }
  }

  // ---------------------------------------------------------- the memory map

  /** Page i lies in the whole pages `pmm_init` counts for this entry. */
  predicate Covers(e: MemoryMapEntry, i: nat) {
    e.kind == USABLE && e.base / PAGE_SIZE <= i < e.base / PAGE_SIZE + e.length / PAGE_SIZE
  }

  predicate Usable(entries: seq<MemoryMapEntry>, i: nat) {
    exists k :: 0 <= k < |entries| && Covers(entries[k], i)
  }

  /** `base + length` in 64 bits. */
  function EntryEnd(e: MemoryMapEntry): Word {
    (e.base + e.length) % TWO_64
  }

  /** No entry reaches past the 64-bit address space. */
  predicate EntriesFit(entries: seq<MemoryMapEntry>) {
    forall k | 0 <= k < |entries| :: entries[k].base + entries[k].length < TWO_64
  }

  function MaxEnd(entries: seq<MemoryMapEntry>): nat {
    if entries == [] then 0
    else
      var rest := MaxEnd(entries[..|entries| - 1]);
      var end := EntryEnd(entries[|entries| - 1]);
      if end > rest then end else rest
  }

  function TotalPages(entries: seq<MemoryMapEntry>): nat {
    MaxEnd(entries) / PAGE_SIZE
  }

  function BitmapSize(total: nat): nat {
    (total + 7) / 8
  }

  /** The bitmap starts at the first page boundary after the kernel. */
  function BitmapStart(kernelEnd: nat): nat {
    (kernelEnd + PAGE_SIZE - 1) / PAGE_SIZE * PAGE_SIZE
  }

  function EndPage(kernelEnd: nat, total: nat): nat {
    (BitmapStart(kernelEnd) + BitmapSize(total) + PAGE_SIZE - 1) / PAGE_SIZE
  }

  lemma {:induction false} MaxEndBounds(entries: seq<MemoryMapEntry>, k: nat)
    requires k < |entries|
    ensures EntryEnd(entries[k]) <= MaxEnd(entries)
  {
    if k < |entries| - 1 {
      MaxEndBounds(entries[..|entries| - 1], k);
    }
  }

  /** The maximum is the end of some entry, or 0 when there is none above. */
  lemma {:induction false} MaxEndAttained(entries: seq<MemoryMapEntry>)
    ensures MaxEnd(entries) == 0 || exists k :: 0 <= k < |entries| && EntryEnd(entries[k]) == MaxEnd(entries)
  {
    if entries != [] {
      var last := |entries| - 1;
      MaxEndAttained(entries[..last]);
      if EntryEnd(entries[last]) <= MaxEnd(entries[..last]) && MaxEnd(entries[..last]) != 0 {
        var k :| 0 <= k < last && EntryEnd(entries[..last][k]) == MaxEnd(entries[..last]);
        assert entries[..last][k] == entries[k];
      }
    }
  }

  /** Every page an entry frees has a bit in the bitmap. */
  lemma CoveredInRange(entries: seq<MemoryMapEntry>, k: nat)
    requires k < |entries| && EntriesFit(entries)
    ensures entries[k].base / PAGE_SIZE + entries[k].length / PAGE_SIZE <= TotalPages(entries)
  {
    MaxEndBounds(entries, k);
  }

  /** In bytes: an entry of type 1 frees the whole pages of its range moved down to a page boundary. */
  lemma CoversInBytes(e: MemoryMapEntry, i: nat)
    ensures Covers(e, i) <==>
            var start := e.base - e.base % 4096;
            e.kind == 1 && start <= 4096 * i && 4096 * i + 4096 <= start + e.length
  {
    var q, p := e.base / 4096, e.length / 4096;
    assert e.base - e.base % 4096 == 4096 * q;
    assert 4096 * p <= e.length < 4096 * p + 4096;
  }

  /** What `pmm_init` owes the kernel, byte by byte. The bitmap, `length` bytes of it, begins at b, the
      first page boundary at or after the kernel. Every byte of kernel and bitmap lies in a used frame;
      everything below 1 MB and outside usable entries is used; and what holds no byte from the start of
      the kernel to the end of the bitmap, lies in a usable entry and above 1 MB, is free. */
  ghost predicate KernelProtected(entries: seq<MemoryMapEntry>, kernelStart: nat, kernelEnd: nat, length: nat, total: nat, used: set<nat>) {
    var b := BitmapStart(kernelEnd);
    && b % 4096 == 0 && kernelEnd <= b < kernelEnd + 4096
    && (forall a: nat | kernelStart <= a < kernelEnd && a / 4096 < total :: a / 4096 in used)
    && (kernelStart <= kernelEnd ==> forall a: nat | b <= a < b + length && a / 4096 < total :: a / 4096 in used)
    && (forall f: nat | f < total && f !in used :: 0x10_0000 <= 4096 * f && Usable(entries, f))
    && (forall f: nat | f < total && Usable(entries, f) && 0x10_0000 <= 4096 * f
                        && (4096 * f + 4096 <= kernelStart || b + length <= 4096 * f) :: f !in used)
  }

  lemma BitmapStartBytes(kernelEnd: nat)
    ensures var b := BitmapStart(kernelEnd); b % 4096 == 0 && kernelEnd <= b < kernelEnd + 4096
  {
    var q := (kernelEnd + 4095) / 4096;
    assert 4096 * q <= kernelEnd + 4095 < 4096 * q + 4096;
    DivIs(4096 * q, 4096, q);
  }

  lemma EndPageBytes(kernelEnd: nat, total: nat, f: nat)
    ensures f < EndPage(kernelEnd, total) <==> 4096 * f < BitmapStart(kernelEnd) + BitmapSize(total)
  {
    var end := BitmapStart(kernelEnd) + BitmapSize(total);
    var q := EndPage(kernelEnd, total);
    assert 4096 * q <= end + 4095 < 4096 * q + 4096;
  }

  lemma PageOfByte(a: nat)
    ensures 4096 * (a / 4096) <= a < 4096 * (a / 4096) + 4096
  {
  }

  /** The page ranges of `pmm_init` protect every byte. */
  lemma PagesProtect(entries: seq<MemoryMapEntry>, kernelStart: nat, kernelEnd: nat, total: nat, used: set<nat>)
    requires forall i: nat | i < total ::
               i !in used <==> Usable(entries, i) && RESERVED_PAGES <= i && !(kernelStart / PAGE_SIZE <= i < EndPage(kernelEnd, total))
    ensures KernelProtected(entries, kernelStart, kernelEnd, BitmapSize(total), total, used)
  {
    hide Usable, EndPage, BitmapStart, BitmapSize;
    var b := BitmapStart(kernelEnd);
    BitmapStartBytes(kernelEnd);
    PageOfByte(kernelStart);
    forall a: nat | a < b + BitmapSize(total) && kernelStart <= a && a / 4096 < total
      ensures a / 4096 in used
    {
      PageOfByte(a);
      EndPageBytes(kernelEnd, total, a / 4096);
    }
    forall f: nat | f < total && Usable(entries, f) && 0x10_0000 <= 4096 * f
                    && (4096 * f + 4096 <= kernelStart || b + BitmapSize(total) <= 4096 * f)
      ensures f !in used
    {
      EndPageBytes(kernelEnd, total, f);
    }
  }

  /** The first free frame is the one the search stops at. */
  lemma AllocIs(used: set<nat>, total: nat, i: nat)
    requires i <= total && (i < total ==> i !in used) && forall g: nat | g < i :: g in used
    ensures FrameSets.Alloc(used, total) == if i < total then (used + {i}, i) else (used, 0)
  {
    var f := FrameSets.FirstFree(used, total, 0);
    assert f < i ==> f in used;
  }

  lemma ByteInRange(i: nat, total: nat)
    requires i < total
    ensures i / 8 < BitmapSize(total)
  {
  }

  // --------------------------------------------------------------- the state

  class Pmm {
    var bitmap: array<Byte>
    var totalPages: nat
    var usedPages: nat
    ghost var used: set<nat> // the frames whose bit is set

    ghost predicate Valid()
      reads this, bitmap
    {
      && bitmap.Length == BitmapSize(totalPages)
      && used == UsedIn(bitmap[..], totalPages)
      && PaddingSet(bitmap[..], totalPages)
      && usedPages == |used|
    }

    /** `pmm_init`: afterwards a frame is free exactly when some usable entry covers it, it lies
        above the first megabyte, and neither the kernel nor the bitmap occupies it. */
    constructor Init(entries: seq<MemoryMapEntry>, kernelStart: nat, kernelEnd: nat)
      requires EntriesFit(entries) && RESERVED_PAGES <= 8 * BitmapSize(TotalPages(entries))
      requires EndPage(kernelEnd, TotalPages(entries)) <= 8 * BitmapSize(TotalPages(entries))
      ensures Valid() && fresh(bitmap)
      ensures totalPages == TotalPages(entries)
      ensures forall i: nat | i < totalPages ::
                i !in used <==> Usable(entries, i) && RESERVED_PAGES <= i
                                && !(kernelStart / PAGE_SIZE <= i < EndPage(kernelEnd, totalPages))
      ensures KernelProtected(entries, kernelStart, kernelEnd, bitmap.Length, totalPages, used)
      ensures totalPages <= 8 * bitmap.Length < totalPages + 8
      ensures 4096 * totalPages <= MaxEnd(entries) < 4096 * totalPages + 4096
    {
      hide UsedIn, PaddingSet, Usable;
      var maxAddr := MaxAddress(entries);
      totalPages := maxAddr / PAGE_SIZE;
      bitmap := new Byte[BitmapSize(maxAddr / PAGE_SIZE)];
      usedPages := maxAddr / PAGE_SIZE;
      new;
      MarkAllUsed();
      ReleaseUsable(entries);
      Reserve(entries, kernelStart / PAGE_SIZE, EndPage(kernelEnd, totalPages));
      PagesProtect(entries, kernelStart, kernelEnd, totalPages, used);
      PaddedLength();
    }

    /** Takes the first megabyte and the pages of the kernel and the bitmap out of the free set. */
    method Reserve(entries: seq<MemoryMapEntry>, startPage: nat, endPage: nat)
      requires Valid() && RESERVED_PAGES <= 8 * bitmap.Length && endPage <= 8 * bitmap.Length
      requires forall i: nat :: i in used <==> i < totalPages && !Usable(entries, i)
      modifies this`usedPages, this`used, bitmap
      ensures Valid()
      ensures forall i: nat | i < totalPages ::
                i !in used <==> Usable(entries, i) && RESERVED_PAGES <= i && !(startPage <= i < endPage)
    {
      hide Valid, Usable;
      ClaimRange(0, RESERVED_PAGES);
      ClaimRange(startPage, endPage);
    }

    /** The loop that determines the end of physical memory. */
    static method MaxAddress(entries: seq<MemoryMapEntry>) returns (maxAddr: nat)
      ensures maxAddr == MaxEnd(entries)
      ensures forall k | 0 <= k < |entries| :: EntryEnd(entries[k]) <= maxAddr
      ensures maxAddr == 0 || exists k :: 0 <= k < |entries| && EntryEnd(entries[k]) == maxAddr
    {
      maxAddr := 0;
      var k: nat := 0;
      while k < |entries|
        invariant k <= |entries| && maxAddr == MaxEnd(entries[..k])
      {
        assert entries[..k + 1][..k] == entries[..k];
        var end := (entries[k].base + entries[k].length) % TWO_64;
        if end > maxAddr {
          maxAddr := end;
        }
        k := k + 1;
      }
      assert entries[..|entries|] == entries;
      forall j | 0 <= j < |entries|
        ensures EntryEnd(entries[j]) <= maxAddr
      {
        MaxEndBounds(entries, j);
      }
      MaxEndAttained(entries);
    }

    method MarkAllUsed()
      requires bitmap.Length == BitmapSize(totalPages) && usedPages == totalPages
      modifies this`used, bitmap
      ensures Valid() && used == FrameSets.Range(totalPages)
    {
      var i: nat := 0;
      while i < bitmap.Length
        invariant i <= bitmap.Length
        invariant forall j | 0 <= j < i :: bitmap[j] == 0xFF
      {
        bitmap[i] := 0xFF;
        i := i + 1;
      }
      forall p: nat
        ensures Bit(bitmap[..], p)
      {
        MaskBits(0, 0, p % 8);
      }
      used := FrameSets.Range(totalPages);
    }

    /** The loop over the memory map that clears the bit of every usable page. */
    method ReleaseUsable(entries: seq<MemoryMapEntry>)
      requires Valid() && totalPages == TotalPages(entries) && EntriesFit(entries)
      modifies this`usedPages, this`used, bitmap
      ensures Valid()
      ensures forall i: nat :: i in used <==> i in old(used) && !Usable(entries, i)
    {
      hide Valid, Covers;
      var k: nat := 0;
      while k < |entries|
        invariant k <= |entries| && Valid()
        invariant forall i: nat :: i in used <==> i in old(used) && !Usable(entries[..k], i)
      {
        CoveredInRange(entries, k);
        ghost var before := used;
        ReleaseEntry(entries[k]);
        UsableStep(entries, k);
        k := k + 1;
      }
      assert entries[..k] == entries;
    }

    method ReleaseEntry(e: MemoryMapEntry)
      requires Valid() && e.base / PAGE_SIZE + e.length / PAGE_SIZE <= totalPages
      modifies this`usedPages, this`used, bitmap
      ensures Valid()
      ensures forall i: nat :: i in used <==> i in old(used) && !Covers(e, i)
    {
      hide Valid;
      if e.kind == USABLE {
        var start, pages := e.base / PAGE_SIZE, e.length / PAGE_SIZE;
        var p: nat := 0;
        while p < pages
          invariant p <= pages && Valid()
          invariant forall i: nat :: i in used <==> i in old(used) && !(start <= i < start + p)
        {
          Release(start + p);
          p := p + 1;
        }
      }
    }

    /** Marks the pages from `first` up to `end` used, counting those that were free. */
    method ClaimRange(first: nat, end: nat)
      requires Valid() && end <= 8 * bitmap.Length
      modifies this`usedPages, this`used, bitmap
      ensures Valid()
      ensures forall i: nat :: i in used <==> i in old(used) || (i < totalPages && first <= i < end)
    {
      hide Valid;
      var p := first;
      while p < end
        invariant first <= p && (p <= end || p == first) && Valid()
        invariant forall i: nat :: i in used <==> i in old(used) || (i < totalPages && first <= i < p)
      {
        Claim(p);
        p := p + 1;
      }
    }

    /** Sets the bit of page p, counting it when it was clear. */
    method Claim(p: nat)
      requires Valid() && p / 8 < bitmap.Length
      modifies this`usedPages, this`used, bitmap
      ensures Valid()
      ensures used == old(used) + if p < totalPages then {p} else {}
    {
      hide Bit, PaddingSet, UsedIn, Set;
      UsedAfterSet(bitmap[..], totalPages, p);
      var taken := IsUsed(p);
      if !taken {
        SetBit(p);
        usedPages := usedPages + 1;
        used := used + {p};
      }
    }

    /** Clears the bit of page p, counting it when it was set. */
    method Release(p: nat)
      requires Valid() && p < totalPages
      modifies this`usedPages, this`used, bitmap
      ensures Valid()
      ensures used == FrameSets.Free(old(used), p)
    {
      hide Bit, PaddingSet, UsedIn, Clear;
      UsedAfterClear(bitmap[..], totalPages, p);
      var taken := IsUsed(p);
      if taken {
        ClearBit(p);
        assert |used| >= 1 && |used - {p}| == |used| - 1;
        usedPages := usedPages - 1;
        used := used - {p};
      }
    }

    /** `bitmap[i / 8] |= 1 << i % 8` */
    method SetBit(i: nat)
      requires i / 8 < bitmap.Length
      modifies bitmap
      ensures bitmap[..] == Set(old(bitmap[..]), i)
    {
      bitmap[i / 8] := bitmap[i / 8] | Mask(i % 8);
    }

    /** `bitmap[i / 8] &= ~(1 << i % 8)` */
    method ClearBit(i: nat)
      requires i / 8 < bitmap.Length
      modifies bitmap
      ensures bitmap[..] == Clear(old(bitmap[..]), i)
    {
      bitmap[i / 8] := bitmap[i / 8] & !Mask(i % 8);
    }

    /** The bit test `bitmap[i / 8] & (1 << i % 8)`. */
    method IsUsed(i: nat) returns (taken: bool)
      requires Valid() && i / 8 < bitmap.Length
      ensures taken <==> i in used || totalPages <= i
    {
      taken := bitmap[i / 8] & Mask(i % 8) != 0;
      assert taken == Bit(bitmap[..], i);
    }

    lemma PaddedLength()
      requires Valid()
      ensures bitmap.Length == BitmapSize(totalPages)
    {
    }

    /** `pmm_alloc_page`: the address of the lowest free frame, or 0 when none is free. */
    method AllocPage() returns (address: nat)
      requires Valid()
      modifies this`usedPages, this`used, bitmap
      ensures Valid()
      ensures used == FrameSets.Alloc(old(used), totalPages).0
      ensures address == FrameSets.Alloc(old(used), totalPages).1 * PAGE_SIZE
    {
      hide Valid, FrameSets.Alloc;
      PaddedLength();
      var i: nat := 0;
      while i < totalPages
        invariant i <= totalPages
        invariant forall g: nat | g < i :: g in used
        modifies {}
      {
        ByteInRange(i, totalPages);
        var taken := IsUsed(i);
        if !taken {
          break;
        }
        i := i + 1;
      }
      AllocIs(used, totalPages, i);
      if i == totalPages {
        return 0;
      }
      Claim(i);
      return i * PAGE_SIZE;
    }

    /** `pmm_free_page`. The caller passes the address of a frame the bitmap covers. */
    method FreePage(address: nat)
      requires Valid() && address / PAGE_SIZE < totalPages
      modifies this`usedPages, this`used, bitmap
      ensures Valid()
      ensures used == FrameSets.Free(old(used), address / PAGE_SIZE)
    {
      Release(address / PAGE_SIZE);
    }
  }

  lemma UsableStep(entries: seq<MemoryMapEntry>, k: nat)
    requires k < |entries|
    ensures forall i: nat :: Usable(entries[..k + 1], i) <==> Usable(entries[..k], i) || Covers(entries[k], i)
  {
    forall i: nat
      ensures Usable(entries[..k + 1], i) <==> Usable(entries[..k], i) || Covers(entries[k], i)
    {
      UsableStepAt(entries, k, i);
    }
  }

  lemma UsableStepAt(entries: seq<MemoryMapEntry>, k: nat, i: nat)
    requires k < |entries|
    ensures Usable(entries[..k + 1], i) <==> Usable(entries[..k], i) || Covers(entries[k], i)
  {
    var more, less := entries[..k + 1], entries[..k];
    if Usable(less, i) {
      var j :| 0 <= j < |less| && Covers(less[j], i);
      assert more[j] == less[j];
    }
    if Covers(entries[k], i) {
      assert more[k] == entries[k];
    }
    if Usable(more, i) {
      var j :| 0 <= j < |more| && Covers(more[j], i);
      assert j < k ==> less[j] == more[j];
    }
  }
}
