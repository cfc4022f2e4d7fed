/** Shared vocabulary of the text codecs. */
module Bytes {
  type byte = x: int | 0 <= x < 0x100

  datatype Option<T> = None | Some(value: T)

  const UINT_MAX: nat := 0xFFFF_FFFF
  const INT_MAX: nat := 0x7FFF_FFFF
  const UV_EINVAL: int := -22
  const UV_E2BIG: int := -7
  const UV_ENOMEM: int := -12
  const UV_ENOSPC: int := -28
  const UV_ENOBUFS: int := -105

  function Min(a: nat, b: nat): nat { if a < b then a else b }
}
