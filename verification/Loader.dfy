/** The chunked kernel load of src/bootloader/new/stage2.asm and the copy to 1 MB, on byte memory. */
module Loader {
  type Byte = bv8

  const SECTOR: nat := 512
  const KERNEL_LBA: nat := 34
  const CHUNK: nat := 16
  const LOAD_SEGMENT: nat := 0x8000
  const LOAD_ADDRESS: nat := 0x8_0000
  const KERNEL_ADDRESS: nat := 0x10_0000
  const MAX_SECTORS: nat := 1024 // where the segment register would wrap and source meet target
  const TWO_16: nat := 0x1_0000

  /** `n` bytes at `address` are the bytes of the disk from `offset` on. */
  predicate Holds(mem: seq<Byte>, address: nat, disk: seq<Byte>, offset: nat, n: nat) {
    && address + n <= |mem| && offset + n <= |disk|
    && forall a | address <= a < address + n :: mem[a] == disk[offset + (a - address)]
  }

  /** INT 13h, extended read: `count` sectors from `lba` to segment:0. */
  method ReadSectors(disk: seq<Byte>, mem: array<Byte>, lba: nat, count: nat, segment: nat)
    requires (lba + count) * SECTOR <= |disk| && segment * 16 + count * SECTOR <= mem.Length
    modifies mem
    ensures Holds(mem[..], segment * 16, disk, lba * SECTOR, count * SECTOR)
    ensures forall a | 0 <= a < mem.Length && !(segment * 16 <= a < segment * 16 + count * SECTOR) :: mem[a] == old(mem[a])
  {
    var b := 0;
    while b < count * SECTOR
      invariant 0 <= b <= count * SECTOR
      invariant Holds(mem[..], segment * 16, disk, lba * SECTOR, b)
      invariant forall a | 0 <= a < mem.Length && !(segment * 16 <= a < segment * 16 + b) :: mem[a] == old(mem[a])
    {
      mem[segment * 16 + b] := disk[lba * SECTOR + b];
      b := b + 1;
    }
  }

  /** `load_kernel_16`: chunks of at most 16 sectors, one behind the other. */
  method LoadKernel(disk: seq<Byte>, mem: array<Byte>, sectors: nat)
    requires sectors <= MAX_SECTORS && (KERNEL_LBA + sectors) * SECTOR <= |disk|
    requires LOAD_ADDRESS + MAX_SECTORS * SECTOR <= mem.Length
    modifies mem
    ensures Holds(mem[..], LOAD_ADDRESS, disk, KERNEL_LBA * SECTOR, sectors * SECTOR)
    ensures forall a | 0 <= a < mem.Length && !(LOAD_ADDRESS <= a < LOAD_ADDRESS + sectors * SECTOR) :: mem[a] == old(mem[a])
  {
    var cx, bx, lba := sectors, LOAD_SEGMENT, KERNEL_LBA;
    while cx != 0
      invariant 0 <= cx <= sectors && lba == KERNEL_LBA + (sectors - cx)
      invariant cx != 0 ==> bx == LOAD_SEGMENT + 32 * (sectors - cx)
      invariant Holds(mem[..], LOAD_ADDRESS, disk, KERNEL_LBA * SECTOR, (sectors - cx) * SECTOR)
      invariant forall a | 0 <= a < mem.Length && !(LOAD_ADDRESS <= a < LOAD_ADDRESS + (sectors - cx) * SECTOR) ::
                  mem[a] == old(mem[a])
    {
      var bp := if cx <= CHUNK then cx else CHUNK;
      ghost var done := (sectors - cx) * SECTOR;
      ghost var before := mem[..];
      ReadSectors(disk, mem, lba, bp, bx);
      ChunkExtends(before, mem[..], disk, done, bp * SECTOR);
      bx := (bx + bp * 32) % TWO_16;
      lba := (lba + bp) % TWO_16;
      cx := cx - bp;
    }
  }

  /** A chunk right behind what is loaded extends it. */
  lemma ChunkExtends(before: seq<Byte>, after: seq<Byte>, disk: seq<Byte>, done: nat, more: nat)
    requires |after| == |before| && Holds(before, LOAD_ADDRESS, disk, KERNEL_LBA * SECTOR, done)
    requires Holds(after, LOAD_ADDRESS + done, disk, KERNEL_LBA * SECTOR + done, more)
    requires forall a | 0 <= a < |after| && !(LOAD_ADDRESS + done <= a < LOAD_ADDRESS + done + more) :: after[a] == before[a]
    ensures Holds(after, LOAD_ADDRESS, disk, KERNEL_LBA * SECTOR, done + more)
  {
    forall a | LOAD_ADDRESS <= a < LOAD_ADDRESS + done + more
      ensures after[a] == disk[KERNEL_LBA * SECTOR + (a - LOAD_ADDRESS)]
    {
      if a < LOAD_ADDRESS + done {
        assert after[a] == before[a];
      }
    }
  }

  /** `rep movsd`: the kernel is copied to 1 MB, four bytes at a time. */
  method CopyKernel(mem: array<Byte>, sectors: nat)
    requires sectors <= MAX_SECTORS && KERNEL_ADDRESS + sectors * SECTOR <= mem.Length
    modifies mem
    ensures Holds(mem[..], KERNEL_ADDRESS, old(mem[..]), LOAD_ADDRESS, sectors * SECTOR)
    ensures forall a | 0 <= a < mem.Length && !(KERNEL_ADDRESS <= a < KERNEL_ADDRESS + sectors * SECTOR) :: mem[a] == old(mem[a])
  {
    hide Copied, DwordCopied, Holds;
    var ecx := sectors * SECTOR / 4;
    DwordCount(sectors);
    var i := 0;
    NothingCopied(mem[..]);
    while i < ecx
      invariant 0 <= i <= ecx
      invariant Copied(mem[..], old(mem[..]), 4 * i)
    {
      ghost var before := mem[..];
      CopyDword(mem, LOAD_ADDRESS + 4 * i, KERNEL_ADDRESS + 4 * i);
      DwordExtends(before, mem[..], old(mem[..]), 4 * i);
      i := i + 1;
    }
    CopiedMeans(mem[..], old(mem[..]), 4 * ecx);
  }

  lemma DwordCount(sectors: nat)
    ensures sectors * SECTOR / 4 * 4 == sectors * SECTOR
  {
  }

  /** The first n bytes are copied, and nothing else has changed. */
  ghost predicate Copied(now: seq<Byte>, source: seq<Byte>, n: nat) {
    && |now| == |source| && LOAD_ADDRESS + n <= KERNEL_ADDRESS && KERNEL_ADDRESS + n <= |now|
    && (forall a | KERNEL_ADDRESS <= a < KERNEL_ADDRESS + n :: now[a] == source[LOAD_ADDRESS + (a - KERNEL_ADDRESS)])
    && (forall a | 0 <= a < |now| && !(KERNEL_ADDRESS <= a < KERNEL_ADDRESS + n) :: now[a] == source[a])
  }

  lemma NothingCopied(mem: seq<Byte>)
    requires KERNEL_ADDRESS <= |mem|
    ensures Copied(mem, mem, 0)
  {
  }

  lemma CopiedMeans(now: seq<Byte>, source: seq<Byte>, n: nat)
    requires Copied(now, source, n)
    ensures |now| == |source| && Holds(now, KERNEL_ADDRESS, source, LOAD_ADDRESS, n)
    ensures forall a | 0 <= a < |now| && !(KERNEL_ADDRESS <= a < KERNEL_ADDRESS + n) :: now[a] == source[a]
  {
  }

  /** Four more bytes behind those copied already. */
  lemma DwordExtends(before: seq<Byte>, after: seq<Byte>, source: seq<Byte>, done: nat)
    requires Copied(before, source, done) && LOAD_ADDRESS + done + 4 <= KERNEL_ADDRESS && KERNEL_ADDRESS + done + 4 <= |before|
    requires DwordCopied(before, after, LOAD_ADDRESS + done, KERNEL_ADDRESS + done)
    ensures Copied(after, source, done + 4)
  {
    forall a | KERNEL_ADDRESS + done <= a < KERNEL_ADDRESS + done + 4
      ensures after[a] == source[LOAD_ADDRESS + (a - KERNEL_ADDRESS)]
    {
      assert before[LOAD_ADDRESS + (a - KERNEL_ADDRESS)] == source[LOAD_ADDRESS + (a - KERNEL_ADDRESS)];
    }
  }

  ghost predicate DwordCopied(before: seq<Byte>, after: seq<Byte>, from: nat, to: nat) {
    && |after| == |before| && from + 4 <= |before| && to + 4 <= |before|
    && (forall a | to <= a < to + 4 :: after[a] == before[from + (a - to)])
    && (forall a | 0 <= a < |after| && !(to <= a < to + 4) :: after[a] == before[a])
  }

  /** One step of `rep movsd`. */
  method CopyDword(mem: array<Byte>, from: nat, to: nat)
    requires from + 4 <= mem.Length && to + 4 <= mem.Length
    modifies mem
    ensures DwordCopied(old(mem[..]), mem[..], from, to)
  {
    mem[to], mem[to + 1], mem[to + 2], mem[to + 3] := mem[from], mem[from + 1], mem[from + 2], mem[from + 3];
  }

  /** Load and copy together are one plain copy: sector 34 + k of the disk ends up at
      0x100000 + 512 * k. */
  method BootKernel(disk: seq<Byte>, mem: array<Byte>, sectors: nat)
    requires sectors <= MAX_SECTORS && (KERNEL_LBA + sectors) * SECTOR <= |disk|
    requires KERNEL_ADDRESS + MAX_SECTORS * SECTOR <= mem.Length
    modifies mem
    ensures forall a | 0x10_0000 <= a < 0x10_0000 + 512 * sectors :: mem[a] == disk[512 * 34 + (a - 0x10_0000)]
    ensures forall a | 0 <= a < mem.Length
                       && !(0x8_0000 <= a < 0x8_0000 + 512 * sectors)
                       && !(0x10_0000 <= a < 0x10_0000 + 512 * sectors) :: mem[a] == old(mem[a])
  {
    LoadKernel(disk, mem, sectors);
    CopyKernel(mem, sectors);
  }
}
