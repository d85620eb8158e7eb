/** Two's-complement conversions between the C integer widths the server relies on. */
module MachineInts {

  const TWO_31 := 0x8000_0000
  const TWO_32 := 0x1_0000_0000
  const TWO_63 := 0x8000_0000_0000_0000
  const TWO_64 := 0x1_0000_0000_0000_0000

  type uint32 = x: int | 0 <= x < TWO_32
  type int32 = x: int | -TWO_31 <= x < TWO_31
  type int64 = x: int | -TWO_63 <= x < TWO_63

  /** Conversion to `unsigned`. */
  function AsUint32(x: int): (r: uint32)
    ensures 0 <= x < TWO_32 ==> r == x
  {
    x % TWO_32
  }

  /** Conversion to `int`, as the supported compilers do it. */
  function AsInt32(x: int): (r: int32)
    ensures -TWO_31 <= x < TWO_31 ==> r == x
  {
    var low := x % TWO_32;
    if low < TWO_31 then low else low - TWO_32
  }

  /** Conversion to `long long`. */
  function AsInt64(x: int): (r: int64)
    ensures -TWO_63 <= x < TWO_63 ==> r == x
  {
    var low := x % TWO_64;
    if low < TWO_63 then low else low - TWO_64
  }

  /** A conversion to 32 bits takes away a multiple of 2^32 and leaves what the type holds. */
  lemma ConversionsWrap(x: int)
    ensures 0 <= AsUint32(x) <= 4294967295 && (x - AsUint32(x)) % 4294967296 == 0
    ensures -2147483648 <= AsInt32(x) <= 2147483647 && (x - AsInt32(x)) % 4294967296 == 0
  {
  }

  /** And one to 64 bits a multiple of 2^64. */
  lemma LongConversionWraps(x: int)
    ensures -9223372036854775808 <= AsInt64(x) <= 9223372036854775807
    ensures (x - AsInt64(x)) % 18446744073709551616 == 0
  {
  }
}
