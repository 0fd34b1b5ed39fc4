/** The SAX events that the JSON reader publishes and the JSON document consumes. */
module JsonEvents {

  const TWO_31 := 0x8000_0000
  const TWO_32 := 0x1_0000_0000
  const TWO_63 := 0x8000_0000_0000_0000
  const TWO_64 := 0x1_0000_0000_0000_0000

  type Int32 = x: int | -TWO_31 <= x < TWO_31
  type Uint32 = x: int | 0 <= x < TWO_32
  type Int64 = x: int | -TWO_63 <= x < TWO_63
  type Uint64 = x: int | 0 <= x < TWO_64

  /** The events of a number; a double carries an exact real, rounding is not modelled. */
  datatype Number =
    | Int(i: Int32)
    | Uint(u: Uint32)
    | Int64(i64: Int64)
    | Uint64(u64: Uint64)
    | Double(d: real)
    | RawNumber(digits: string)

  datatype Event =
    | Null
    | Bool(b: bool)
    | Num(n: Number)
    | Str(s: string)
    | StartObject
    | Key(name: string)
    | EndObject(memberCount: nat)
    | StartArray
    | EndArray(elementCount: nat)
}
