/**
 * Physical memory, the scratch stack in it, and the boot disk. Memory is one byte array; the BIOS read
 * service copies whole sectors into it.
 */
module Machine {
  import opened Words
  import opened Allocators

  /** The disk as a flat byte function, with the set of sectors whose transfer fails. */
  datatype Disk = Disk(sectorSize: nat, byteAt: nat -> U8, bad: nat -> bool) {
    ghost predicate Working() {
      forall lba: nat :: !bad(lba)
    }

    predicate Readable(lba: nat, count: nat) {
      forall s :: lba <= s < lba + count ==> !bad(s)
    }
  }

  class Memory {
    const disk: Disk
    const ram: array<U8>
    var extTop: nat

    constructor (disk: Disk, ram: array<U8>)
      requires disk.sectorSize > 0 && REAL_MODE_LIMIT < ram.Length < LIMIT32
      ensures Valid() && this.disk == disk && this.ram == ram && extTop == EXTENDED_STACK_BASE
    {
      this.disk, this.ram, extTop := disk, ram, EXTENDED_STACK_BASE;
    }

    ghost predicate Valid()
      reads this
    {
      && disk.sectorSize > 0
      && REAL_MODE_LIMIT < ram.Length < LIMIT32
      && EXTENDED_STACK_LIMIT <= extTop <= EXTENDED_STACK_BASE
    }

    /** Free scratch space. */
    function Room(): int
      reads this
    {
      extTop - EXTENDED_STACK_LIMIT
    }

    ghost function ExtArena(): Arena
      reads this
    {
      Arena(extTop, STATIC_STACK_BASE)
    }

    /** `push`; not ok is the panic "Overgrown extended stack". */
    method Push(n: U32) returns (ok: bool, block: nat)
      requires Valid()
      modifies this`extTop
      ensures Valid() && ok == (old(Room()) >= n)
      ensures extTop == if ok then old(extTop) - n else old(extTop)
      ensures ok ==> block == extTop
      ensures Apply(old(ExtArena()), Op.Push(n)) == if ok then Some(ExtArena()) else None
    {
      ok := extTop - EXTENDED_STACK_LIMIT >= n;
      block := 0;
      if ok {
        extTop := extTop - n;
        block := extTop;
      }
    }

    /** `pop`; not ok is the panic "Stack overflow". */
    method Pop(n: U32) returns (ok: bool)
      requires Valid()
      modifies this`extTop
      ensures Valid() && ok == (EXTENDED_STACK_BASE - old(extTop) >= n)
      ensures extTop == if ok then old(extTop) + n else old(extTop)
      ensures Apply(old(ExtArena()), Op.Pop(n)) == if ok then Some(ExtArena()) else None
    {
      ok := EXTENDED_STACK_BASE - extTop >= n;
      if ok {
        extTop := extTop + n;
      }
    }

    /** `disk_read`: refuses buffers beyond real-mode reach; on failure the buffer is unspecified. */
    method DiskRead(lba: nat, addr: nat, count: nat) returns (ok: bool)
      requires Valid() && addr + count * disk.sectorSize <= ram.Length
      modifies ram
      ensures ok == (addr <= REAL_MODE_LIMIT && disk.Readable(lba, count))
      ensures ok ==> forall a :: addr <= a < addr + count * disk.sectorSize ==>
        ram[a] == disk.byteAt(lba * disk.sectorSize + (a - addr))
      ensures forall a :: 0 <= a < ram.Length && !(addr <= a < addr + count * disk.sectorSize) ==> ram[a] == old(ram[a])
    {
      if addr > REAL_MODE_LIMIT {
        return false;
      }
      ok := disk.Readable(lba, count);
      if ok {
        var n := count * disk.sectorSize;
        forall a | addr <= a < addr + n {
          ram[a] := disk.byteAt(lba * disk.sectorSize + (a - addr));
        }
      }
    }

    /** `memcpy` between disjoint blocks. */
    method MemCpy(dst: nat, src: nat, n: nat)
      requires Valid() && dst + n <= ram.Length && src + n <= ram.Length
      requires dst + n <= src || src + n <= dst
      modifies ram
      ensures forall a :: dst <= a < dst + n ==> ram[a] == old(ram[src + (a - dst)])
      ensures forall a :: 0 <= a < ram.Length && !(dst <= a < dst + n) ==> ram[a] == old(ram[a])
    {
      forall a | dst <= a < dst + n {
        ram[a] := ram[src + (a - dst)];
      }
    }

    /** `memset` */
    method MemSet(dst: nat, b: U8, n: nat)
      requires Valid() && dst + n <= ram.Length
      modifies ram
      ensures forall a :: dst <= a < dst + n ==> ram[a] == b
      ensures forall a :: 0 <= a < ram.Length && !(dst <= a < dst + n) ==> ram[a] == old(ram[a])
    {
      forall a | dst <= a < dst + n {
        ram[a] := b;
      }
    }
  }
}
