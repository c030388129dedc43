/** Already-decoded MessagePack objects, as the decoder sees them, and the
    fixed-width integer conversions the decoder applies to them. */
module Values {

  const TWO_32: int := 0x1_0000_0000
  const TWO_64: int := 0x1_0000_0000_0000_0000

  newtype byte = x: int | 0 <= x < 0x100
  newtype int32 = x: int | -0x8000_0000 <= x < 0x8000_0000
  newtype int64 = x: int | -0x8000_0000_0000_0000 <= x < 0x8000_0000_0000_0000
  newtype uint64 = x: int | 0 <= x < 0x1_0000_0000_0000_0000

  /** A decoded object: the three kinds the decoder accepts, plus everything
      else (nil, booleans, floats, maps) folded into Other. */
  datatype Value =
    | PosInt(u: uint64)         // MSGPACK_OBJECT_POSITIVE_INTEGER
    | NegInt(i: int64)          // MSGPACK_OBJECT_NEGATIVE_INTEGER
    | Raw(bytes: seq<byte>)     // MSGPACK_OBJECT_RAW
    | Array(items: seq<Value>)  // MSGPACK_OBJECT_ARRAY
    | Other
  {
    predicate IsInteger() { PosInt? || NegInt? }
  }

  /** The object's `via.i64`: a positive integer's 64-bit pattern read as a
      signed value, so values from 2^63 upwards come out negative. */
  function AsInt64(v: Value): (r: int64)
    requires v.IsInteger()
    ensures v.NegInt? ==> r == v.i
    ensures v.PosInt? ==> (r as int - v.u as int) % TWO_64 == 0
    ensures v.PosInt? && v.u < 0x8000_0000_0000_0000 ==> r as int == v.u as int
  {
    if v.NegInt? then v.i
    else if v.u < 0x8000_0000_0000_0000 then v.u as int as int64
    else (v.u as int - TWO_64) as int64
  }

  /** Storing an int64_t into an `int` local: two's-complement truncation to
      the low 32 bits. */
  function ToInt32(x: int64): (r: int32)
    ensures (r as int - x as int) % TWO_32 == 0
    ensures -0x8000_0000 <= x < 0x8000_0000 ==> r as int == x as int
  {
    var m := x as int % TWO_32;
    if m < 0x8000_0000 then m as int32 else (m - TWO_32) as int32
  }
}
