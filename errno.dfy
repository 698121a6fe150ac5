/** The POSIX error numbers the bootloader returns, negated as Zephyr does. */
module Errno {
  const EIO: int := 5
  const ENODEV: int := 19
  const EINVAL: int := 22

  /** A negative `-errno` return value. */
  type NegInt = e: int | e < 0 witness -1
}
