// The value type shared by every component: what a pjson tree denotes once its
// storage (nodes, vectors, hash tables) is abstracted away.

module JsonValue {

  // A C++ char, as its unsigned value.
  type Byte = b: int | 0 <= b < 256
  type Bytes = seq<Byte>

  const INT64_MIN: int := -0x8000_0000_0000_0000
  const INT64_MAX: int := 0x7FFF_FFFF_FFFF_FFFF
  const UINT64_MAX: int := 0xFFFF_FFFF_FFFF_FFFF
  const SIZE_MAX: int := UINT64_MAX

  type Int64 = x: int | INT64_MIN <= x <= INT64_MAX
  type UInt64 = x: int | 0 <= x <= UINT64_MAX

  datatype Option<+T> = None | Some(value: T)

  const MANTISSA_LIMIT: nat := 0x20_0000_0000_0000

  // A finite double is sign * magnitude * 2^exponent, exactly.
  datatype FloatParts =
    | NaN
    | Infinity(negative: bool)
    | Finite(negative: bool, magnitude: nat, exponent: int)

  // A binary64 value.
  type Float = f: FloatParts | f.Finite? ==> f.magnitude < MANTISSA_LIMIT && -1074 <= f.exponent <= 971
    witness NaN

  // An object is a finite map: the hash table's iteration order is not part of
  // the value.
  datatype Json =
    | Null
    | Bool(b: bool)
    | Int(i: Int64)
    | UInt(u: UInt64)
    | Double(d: Float)
    | Str(s: Bytes)
    | Arr(items: seq<Json>)
    | Obj(members: map<Bytes, Json>)

  predicate IsContainer(v: Json) {
    v.Arr? || v.Obj?
  }

  predicate IsNumber(v: Json) {
    v.Int? || v.UInt? || v.Double?
  }
}
