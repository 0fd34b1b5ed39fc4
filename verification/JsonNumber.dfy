/**
 The numbers of a JSON value: one 64-bit cell read as several integer types, with flags that say
 which of the reads are exact.
 */
module JsonNumber {
  import opened JsonEvents

  const NUMBER_TYPE: bv16 := 0x0006
  const NUMBER_FLAG: bv16 := 0x0010
  const INT_FLAG: bv16 := 0x0020
  const UINT_FLAG: bv16 := 0x0040
  const INT64_FLAG: bv16 := 0x0080
  const UINT64_FLAG: bv16 := 0x0100
  const DOUBLE_FLAG: bv16 := 0x0200

  const NUMBER_INT_FLAG := NUMBER_TYPE | NUMBER_FLAG | INT_FLAG | INT64_FLAG
  const NUMBER_UINT_FLAG := NUMBER_TYPE | NUMBER_FLAG | UINT_FLAG | UINT64_FLAG | INT64_FLAG
  const NUMBER_INT64_FLAG := NUMBER_TYPE | NUMBER_FLAG | INT64_FLAG
  const NUMBER_UINT64_FLAG := NUMBER_TYPE | NUMBER_FLAG | UINT64_FLAG
  const NUMBER_DOUBLE_FLAG := NUMBER_TYPE | NUMBER_FLAG | DOUBLE_FLAG

  /** The cell: the 64 bits of an integer, read as unsigned, or a double. */
  datatype Cell = Bits(u64: Uint64) | Real(d: real)

  datatype Data = Data(flags: bv16, cell: Cell) {
    predicate IsInt() { flags & INT_FLAG != 0 }
    predicate IsUint() { flags & UINT_FLAG != 0 }
    predicate IsInt64() { flags & INT64_FLAG != 0 }
    predicate IsUint64() { flags & UINT64_FLAG != 0 }
    predicate IsDouble() { flags & DOUBLE_FLAG != 0 }
  }

  // The constructors. A test against a mask of high bits is a division.

  function OfInt(i: Int32): Data {
    Data(if i >= 0 then NUMBER_INT_FLAG | UINT_FLAG | UINT64_FLAG else NUMBER_INT_FLAG, Bits(i % TWO_64))
  }

  function OfUint(u: Uint32): Data {
    Data(if u / TWO_31 != 0 then NUMBER_UINT_FLAG else NUMBER_UINT_FLAG | INT_FLAG | INT64_FLAG, Bits(u))
  }

  function OfInt64(i: Int64): Data {
    var u := i % TWO_64;
    var flags :=
      if i >= 0 then
        NUMBER_INT64_FLAG | NUMBER_UINT64_FLAG
        | (if u / TWO_32 == 0 then UINT_FLAG else 0)
        | (if u / TWO_31 == 0 then INT_FLAG else 0)
      else if i >= -TWO_31 then NUMBER_INT64_FLAG | INT_FLAG
      else NUMBER_INT64_FLAG;
    Data(flags, Bits(u))
  }

  function OfUint64(u: Uint64): Data {
    Data(NUMBER_UINT64_FLAG
         | (if u / TWO_63 == 0 then INT64_FLAG else 0)
         | (if u / TWO_32 == 0 then UINT_FLAG else 0)
         | (if u / TWO_31 == 0 then INT_FLAG else 0),
         Bits(u))
  }

  function OfDouble(d: real): Data {
    Data(NUMBER_DOUBLE_FLAG, Real(d))
  }

  // The reads of the cell, by type.

  function AsInt(bits: Uint64): Int32 {
    var low := bits % TWO_32;
    if low < TWO_31 then low else low - TWO_32
  }

  function AsUint(bits: Uint64): Uint32 {
    bits % TWO_32
  }

  function AsInt64(bits: Uint64): Int64 {
    if bits < TWO_63 then bits else bits - TWO_64
  }

  /** The value of an integer, with the flags that its range alone decides. */
  ghost predicate Holds(n: Data, k: int) {
    && -TWO_63 <= k < TWO_64
    && n.cell == Bits(k % TWO_64)
    && (n.IsInt() <==> -TWO_31 <= k < TWO_31)
    && (n.IsUint() <==> 0 <= k < TWO_32)
    && (n.IsInt64() <==> -TWO_63 <= k < TWO_63)
    && (n.IsUint64() <==> 0 <= k < TWO_64)
    && !n.IsDouble()
    && n.flags & !(INT_FLAG | UINT_FLAG | INT64_FLAG | UINT64_FLAG) == NUMBER_TYPE | NUMBER_FLAG
  }

  /** Whichever constructor built it, an integer answers the type tests by its range. */
  lemma ConstructorsHold(k: int)
    ensures -TWO_31 <= k < TWO_31 ==> Holds(OfInt(k), k)
    ensures 0 <= k < TWO_32 ==> Holds(OfUint(k), k)
    ensures -TWO_63 <= k < TWO_63 ==> Holds(OfInt64(k), k)
    ensures 0 <= k < TWO_64 ==> Holds(OfUint64(k), k)
  {
  }

  /** So equal integers are equal cells with equal flags, however they were built. */
  lemma HoldsDetermines(a: Data, b: Data, k: int)
    requires Holds(a, k) && Holds(b, k)
    ensures a == b
  {
  }

  /** The numbers that the constructors build. */
  ghost predicate Built(n: Data) {
    (exists k: int :: Holds(n, k)) || (n.cell.Real? && n == OfDouble(n.cell.d))
  }

  /** The event that a number publishes: the narrowest read that its flags allow. */
  function Publish(n: Data): Number
    requires Built(n)
  {
    match n.cell
    case Real(d) => Double(d)
    case Bits(b) =>
      if n.IsInt() then Int(AsInt(b))
      else if n.IsUint() then Uint(AsUint(b))
      else if n.IsInt64() then Int64(AsInt64(b))
      else Uint64(b)
  }

  /** The number that the document builds for an event. */
  function Build(e: Number): Data
    requires !e.RawNumber?
  {
    match e
    case Int(i) => OfInt(i)
    case Uint(u) => OfUint(u)
    case Int64(i) => OfInt64(i)
    case Uint64(u) => OfUint64(u)
    case Double(d) => OfDouble(d)
  }

  /** The integer that an event carries. */
  function Carried(e: Number): int
    requires e.Int? || e.Uint? || e.Int64? || e.Uint64?
  {
    match e
    case Int(i) => i
    case Uint(u) => u
    case Int64(i) => i
    case Uint64(u) => u
  }

  lemma BuildHolds(e: Number)
    requires !e.RawNumber?
    ensures Built(Build(e))
    ensures !e.Double? ==> Holds(Build(e), Carried(e))
  {
    if !e.Double? {
      ConstructorsHold(Carried(e));
    }
  }

  /** The published event carries the value exactly, and building from it gives the number back. */
  lemma PublishBuild(n: Data)
    requires Built(n)
    ensures !Publish(n).RawNumber? && Build(Publish(n)) == n
    ensures forall k: int :: Holds(n, k) ==> !Publish(n).Double? && Carried(Publish(n)) == k
  {
    forall k: int | Holds(n, k)
      ensures !Publish(n).Double? && Carried(Publish(n)) == k && Build(Publish(n)) == n
    {
      ConstructorsHold(k);
      HoldsDetermines(n, Build(Publish(n)), k);
    }
    if n.cell.Real? {
      assert forall k: int :: !Holds(n, k);
    }
  }
}
