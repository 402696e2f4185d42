/** How the commands turn a type tag and a value argument into bytes. */
module Conversions {
  import opened Common
  import opened DataType
  import opened MemoryFuncs

  /** The tags that name an integer type. */
  predicate IsIntType(t: DataType) {
    t != F32 && t != F64 && t != String
  }

  /** The integer type each integer tag instantiates the templates with. */
  function IntKindOf(t: DataType): (k: IntKind)
    requires IsIntType(t)
    ensures TypeName(t) == (if Signed(k) then "int" else "uint") + DecimalString(8 * Width(k))
  {
    match t
    case Int8 => I8
    case Int16 => assert DecimalString(16) == "16"; I16
    case Int32 => assert DecimalString(32) == "32"; I32
    case Int64 => assert DecimalString(64) == "64"; I64
    case UInt8 => U8
    case UInt16 => assert DecimalString(16) == "16"; U16
    case UInt32 => assert DecimalString(32) == "32"; U32
    case UInt64 => assert DecimalString(64) == "64"; U64
  }

  /** Utils::StrToNumber<T>, whose body is not part of this model: it either
      throws or yields a value T can hold. */
  type NumberParser = f: (IntKind, string) -> Result<int> |
    forall k: IntKind, s: string :: f(k, s).Ok? ==> InRange(k, f(k, s).value)
    witness (k: IntKind, s: string) => Err(Exc(InvalidArgument, "stoll"))
}
