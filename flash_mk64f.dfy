/**
 * The Kinetis K64F internal flash driver (drivers/flash/soc_flash_mk64f.c)
 * as a contract over an abstract flash. Offsets are translated to
 * addresses in the 32-bit address space; the vendor calls FLASH_Erase
 * and FLASH_Program are foreign, so the model records each one the driver
 * issued on an instance and takes the status it returned as a
 * parameter. FLASH_Erase and FLASH_Program change flash inside the range
 * they are given; what they leave there is not modelled, only that the
 * rest of flash keeps its contents. FLASH_Init is the static Init, whose
 * status is its parameter; it is not logged.
 */
module FlashMk64f {
  import opened Bytes

  const AddressSpace: nat := 0x1_0000_0000

  /** kStatus_Success from the vendor's fsl_common.h. */
  const StatusSuccess: int := 0

  /** `(rc == kStatus_Success) ? 0 : -1`, the mapping of every vendor status. */
  function StatusToResult(rc: int): (ret: int)
    ensures ret == 0 <==> rc == StatusSuccess
    ensures ret == 0 || ret == -1
  {
    if rc == StatusSuccess then 0 else -1
  }

  /** A vendor call the driver made. */
  datatype VendorOp =
    | EraseOp(addr: nat, len: nat)
    | ProgramOp(addr: nat, data: seq<Byte>)

  /**
   * `offset + PFlashBlockBase` stored in a uint32_t. The offset is a signed
   * off_t; the unsigned conversion is taken modulo 2^32, as is the
   * Euclidean remainder.
   */
  function Address(offset: int, blockBase: nat): (addr: nat)
    requires blockBase < AddressSpace
    ensures addr < AddressSpace
    ensures 0 <= offset && offset + blockBase < AddressSpace ==> addr == offset + blockBase
    ensures (addr - offset - blockBase) % AddressSpace == 0
  {
    (offset + blockBase) % AddressSpace
  }

  /**
   * The only alignment check write makes is on the offset; with a
   * word-aligned block base that is enough for the address handed to
   * FLASH_Program to be word-aligned too.
   */
  lemma AlignedOffsetGivesAlignedAddress(offset: int, blockBase: nat)
    requires blockBase < AddressSpace
    requires blockBase % 4 == 0 && offset % 4 == 0
    ensures Address(offset, blockBase) % 4 == 0
  {
    var s := offset + blockBase;
    assert s % 4 == 0 by {
      assert s == 4 * (offset / 4) + 4 * (blockBase / 4);
    }
    var q := s / AddressSpace;
    assert s == q * AddressSpace + Address(offset, blockBase);
    assert Address(offset, blockBase) == 4 * (s / 4 - q * (AddressSpace / 4));
  }

  /** The driver instance: the memory-mapped flash, its configuration and the vendor calls made. */
  class Mk64fFlash {
    /** The bytes at addresses 0 .. mem.Length - 1, read by plain memory access. */
    const mem: array<Byte>
    /** config.PFlashBlockBase as filled in by FLASH_Init. */
    const blockBase: nat
    /** The FLASH_Erase and FLASH_Program calls issued, oldest first. */
    var ops: seq<VendorOp>

    ghost predicate Valid()
      reads this
    {
      blockBase < AddressSpace
    }

    /**
     * Every byte of flash outside `len` bytes from `addr` still holds what
     * `before` held there. The bytes inside are left to the vendor call.
     */
    ghost predicate Untouched(before: seq<Byte>, addr: nat, len: nat)
      reads mem
    {
      |before| == mem.Length
      && forall a :: 0 <= a < mem.Length && !(addr <= a < addr + len) ==> mem[a] == before[a]
    }

    constructor (mem: array<Byte>, blockBase: nat)
      requires blockBase < AddressSpace
      ensures Valid() && this.mem == mem && this.blockBase == blockBase && ops == []
    {
      this.mem := mem;
      this.blockBase := blockBase;
      ops := [];
    }

    /** flash_k64f_init: 0 exactly when FLASH_Init returned success. */
    static method Init(rc: int) returns (ret: int)
      ensures ret == 0 <==> rc == StatusSuccess
      ensures ret == 0 || ret == -1
    {
      ret := StatusToResult(rc);
    }

    /**
     * flash_k64f_erase: one FLASH_Erase of `len` bytes at the translated
     * address, whose status `rc` becomes 0 or -1.
     */
    method Erase(offset: int, len: nat, rc: int) returns (ret: int)
      requires Valid()
      modifies this`ops, mem
      ensures ops == old(ops) + [EraseOp(Address(offset, blockBase), len)]
      ensures Untouched(old(mem[..]), Address(offset, blockBase), len)
      ensures ret == 0 <==> rc == StatusSuccess
      ensures ret == 0 || ret == -1
    {
      var addr := Address(offset, blockBase);
      ops := ops + [EraseOp(addr, len)];
      ret := StatusToResult(rc);
    }

    /**
     * flash_k64f_read: `len` bytes from the translated address into `data`;
     * it always succeeds, and flash is left alone. The driver does not check
     * the range; the model requires it to lie inside the mapped memory.
     */
    method Read(offset: int, data: array<Byte>, len: nat) returns (ret: int)
      requires Valid() && data != mem
      requires Address(offset, blockBase) + len <= mem.Length && len <= data.Length
      modifies data
      ensures ret == 0
      ensures data[..len] == mem[Address(offset, blockBase)..Address(offset, blockBase) + len]
      ensures data[len..] == old(data[len..])
    {
      var addr := Address(offset, blockBase);
      CopyInto(data, 0, mem[addr..addr + len]);
      return 0;
    }

    /**
     * flash_k64f_write: an offset that is not a multiple of 4 is refused
     * with -1 before anything is programmed; otherwise one FLASH_Program of
     * `data` at the translated address, whose status `rc` becomes 0 or -1.
     * The length is not checked.
     */
    method Write(offset: int, data: seq<Byte>, rc: int) returns (ret: int)
      requires Valid()
      modifies this`ops, mem
      ensures offset % 4 != 0 ==> ret == -1 && ops == old(ops) && mem[..] == old(mem[..])
      ensures offset % 4 == 0 ==> Untouched(old(mem[..]), Address(offset, blockBase), |data|)
      ensures offset % 4 == 0 ==> ops == old(ops) + [ProgramOp(Address(offset, blockBase), data)]
      ensures offset % 4 == 0 ==> (ret == 0 <==> rc == StatusSuccess)
      ensures ret == 0 || ret == -1
    {
      var addr := Address(offset, blockBase);
      if offset % 4 != 0 {
        return -1;
      }
      ops := ops + [ProgramOp(addr, data)];
      ret := StatusToResult(rc);
    }

    /** flash_k64f_write_protection: nothing to do, always 0. */
    method WriteProtection(enable: bool) returns (ret: int)
      ensures ret == 0
    {
      return 0;
    }
  }
}
