/** What several of the C sources share: limits of their integers, error numbers, truth values as numbers. */
module CValues {
  const INT_MAX: int := 0x7fff_ffff
  const INT_MIN: int := -0x8000_0000
  const UINT_MAX: int := 0xffff_ffff

  const ENOMEM := -12
  const ENODEV := -19
  const EINVAL := -22
  const ERANGE := -34

  function Bit(b: bool): nat { if b then 1 else 0 }
}
