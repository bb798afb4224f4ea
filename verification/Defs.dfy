/** The constants that several parts of the kernel share (kern/mm/memlayout.h, kern/mm/vmm.h, libs/error.h). */
module Defs {
  const PGSIZE: int := 0x1000
  /** User memory is [USERBASE, USERTOP). */
  const USERBASE: int := 0x0020_0000
  const USERTOP: int := 0xB000_0000
  /** Kernel memory is [KERNBASE, KERNTOP). */
  const KERNBASE: int := 0xC000_0000
  const KERNTOP: int := 0xF800_0000
  const TWO_32: int := 0x1_0000_0000

  const E_INVAL: int := 3
  const E_NO_MEM: int := 4
  const E_NO_FREE_PROC: int := 5
  const E_SWAP_FAULT: int := 7

  const VM_READ: bv32 := 1
  const VM_WRITE: bv32 := 2
  const VM_EXEC: bv32 := 4
  const VM_STACK: bv32 := 8
  const VM_SHARE: bv32 := 0x10
}
