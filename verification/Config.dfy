/** Quantities that the C build fixes.  Nothing is proved from their value, only from their range. */
module Config {
  type FieldWidth = x: int | x == 1 || x == 2 || x == 4 witness 4
  type AddressWidth = x: int | x == 4 || x == 8 witness 4
  type RequiredLimit = x: int | 64 <= x witness 64

  /** `sizeof(pb_size_t)`: PB_FIELD_32BIT, PB_FIELD_16BIT or neither. */
  const SIZE_BYTES: FieldWidth

  /** PB_SIZE_MAX. */
  const SIZE_MAX: nat := if SIZE_BYTES == 1 then 0xFF else if SIZE_BYTES == 2 then 0xFFFF else 0xFFFF_FFFF

  /** `sizeof(size_t)`. */
  const SIZE_T_BYTES: AddressWidth

  /** The largest `size_t`, and `1 << (sizeof(size_t) * 4)`. */
  const SIZE_T_MAX: nat := if SIZE_T_BYTES == 4 then 0xFFFF_FFFF else 0xFFFF_FFFF_FFFF_FFFF
  const CHECK_LIMIT: nat := if SIZE_T_BYTES == 4 then 0x1_0000 else 0x1_0000_0000

  /** `sizeof(void*)`. */
  const POINTER_SIZE: nat

  /** PB_MAX_REQUIRED_FIELDS. */
  const MAX_REQUIRED: RequiredLimit
}
