/**
 * The error numbers the core returns. The values follow the Linux numbering
 * that mbed's retarget header and lwext4 use; the model relies only on EOK
 * being zero and the others being distinct and positive.
 */
module Errno {

  const EOK: int := 0
  const ENOENT: int := 2
  const EIO: int := 5
  const ENXIO: int := 6
  const ENOMEM: int := 12
  const ENODEV: int := 19
  const EINVAL: int := 22
  const ENOTSUP: int := 95
}
