/** Compile-time options of the library (pb.h:8-44, 134-141, 208-221).  Each is an arbitrary constant of its
    type, so every result holds for every setting. */
module Config {
  type PbSizeMax = x: nat | x == 0xFF || x == 0xFFFF || x == 0xFFFF_FFFF witness 0xFF
  type SizeTMax = x: nat | x == 0xFFFF_FFFF || x == 0xFFFF_FFFF_FFFF_FFFF witness 0xFFFF_FFFF
  type RequiredLimit = x: nat | x >= 64 witness 64
  type PointerSize = x: nat | x == 2 || x == 4 || x == 8 witness 4

  /** The largest pb_size_t: the width chosen by PB_FIELD_16BIT or PB_FIELD_32BIT. */
  const PB_SIZE_MAX: PbSizeMax

  /** The largest size_t. */
  const SIZE_T_MAX: SizeTMax

  /** sizeof(void*) */
  const POINTER_SIZE: PointerSize

  /** PB_MAX_REQUIRED_FIELDS: how many required fields the decoder tracks. */
  const PB_MAX_REQUIRED_FIELDS: RequiredLimit

  /** PB_ENCODE_ARRAYS_UNPACKED: whether scalar arrays are encoded one record an element. */
  const PB_ENCODE_ARRAYS_UNPACKED: bool

  /** offsetof(pb_bytes_array_t, bytes): the width of the count in front of the bytes. */
  function BytesHeader(): nat {
    if PB_SIZE_MAX == 0xFF then 1 else if PB_SIZE_MAX == 0xFFFF then 2 else 4
  }
}
