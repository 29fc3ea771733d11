/** The kernel's error numbers, and results that may be one. */
module Errors {

  datatype Result<T> = Ok(value: T) | Err(code: int)

  const EPERM := 1
  const ENXIO := 6
  const EAGAIN := 11
  const EFAULT := 14
  const ENODEV := 19
  const EINVAL := 22
  const EOPNOTSUPP := 95
  const ECONNRESET := 104
  const ENOTCONN := 107
  const ERESTARTSYS := 512
}
