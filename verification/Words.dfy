/** Fixed-width integers of the boot loader, and the constants of include/mm_common.h. */
module Words {
  const TWO32: int := 0x1_0000_0000

  type u8 = x: int | 0 <= x < 0x100
  type u16 = x: int | 0 <= x < 0x1_0000
  type u32 = x: int | 0 <= x < 0x1_0000_0000

  datatype Option<+T> = None | Some(value: T)

  // A word read as a signed integer.
  function Signed(w: u32): int { if w >= 0x8000_0000 then w - TWO32 else w }
}

module MmCommon {
  import opened Words

  const PAGE_SIZE: int := 4096
  const PADDR_MAX: int := 15 * 0x10_0000 - 1
  const KERNEL_MEMSZ_MAX: int := 0x10_0000
  const KERNEL_PADDR_MAX: int := PADDR_MAX
  const KERNEL_VADDR_MAX: int := 0xffbf_ffff

  // The source masks ten bits, not twelve: every multiple of 1 KiB passes.
  predicate AddrIsPageAligned(addr: u32) {
    addr % 1024 == 0
  }
}
