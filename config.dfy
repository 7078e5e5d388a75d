/** Machine integer widths and the build-time configuration the task record depends on. */
module Config {

  /** Rust's `u32`. */
  type U32 = x: int | 0 <= x < 0x1_0000_0000

  /** Rust's `usize` on the kernel's 64-bit target. */
  type Usize = x: int | 0 <= x < 0x1_0000_0000_0000_0000

  /** The largest `u32`; incrementing a counter that holds it overflows. */
  const U32Max: U32 := 0xFFFF_FFFF

  /** A table capacity: a positive `usize`. */
  type Capacity = n: Usize | 0 < n witness 1

  /**
   * `MAX_SYSCALL_NUM`, the length of every per-task syscall counter table.
   * Its value is fixed by the kernel's configuration module, which is not part
   * of this model, so it is left symbolic: every proof holds for any positive capacity.
   */
  const MaxSyscallNum: Capacity
}
