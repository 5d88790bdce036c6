/** The C integer types used by the modelled code. Assigning to a variable, field or array
    element of one of these types carries the obligation that the value is representable, so
    a verified method never wraps around or truncates silently. */
module MachineInts {
  const TWO_31: int := 0x8000_0000
  const TWO_32: int := 0x1_0000_0000
  const TWO_63: int := 0x8000_0000_0000_0000
  const TWO_64: int := 0x1_0000_0000_0000_0000
  const TWO_128: int := 0x1_0000_0000_0000_0000_0000_0000_0000_0000

  type byte = x: int | 0 <= x < 256
  type i8 = x: int | -128 <= x < 128
  type u32 = x: int | 0 <= x < TWO_32
  type u64 = x: int | 0 <= x < TWO_64
  type i64 = x: int | -TWO_63 <= x < TWO_63
  type u128 = x: int | 0 <= x < TWO_128
}
