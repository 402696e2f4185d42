/** The type tags of the command line and their parser (src/DataType.cpp). */
module DataType {
  import opened Common

  datatype DataType = Int8 | Int16 | Int32 | Int64 | UInt8 | UInt16 | UInt32 | UInt64 | F32 | F64 | String

  /** The name of each type tag on the command line. */
  function TypeName(t: DataType): string {
    match t
    case Int8 => "int8"
    case Int16 => "int16"
    case Int32 => "int32"
    case Int64 => "int64"
    case UInt8 => "uint8"
    case UInt16 => "uint16"
    case UInt32 => "uint32"
    case UInt64 => "uint64"
    case F32 => "float"
    case F64 => "double"
    case String => "string"
  }

  /** `typeStr[0]` of an empty std::string is the terminating NUL character. */
  function FirstChar(s: string): char {
    if |s| == 0 then '\0' else s[0]
  }

  function ParseDataType(typeStr: string): (r: Result<DataType>)
    ensures r.Err? ==> r.exc.kind == RuntimeError
  {
    if FirstChar(typeStr) == 'i' then
      if typeStr == "int8" then Ok(Int8)
      else if typeStr == "int16" then Ok(Int16)
      else if typeStr == "int32" then Ok(Int32)
      else if typeStr == "int64" then Ok(Int64)
      else Err(Exc(RuntimeError, "Invalid signed type."))
    else if FirstChar(typeStr) == 'u' then
      if typeStr == "uint8" then Ok(UInt8)
      else if typeStr == "uint16" then Ok(UInt16)
      else if typeStr == "uint32" then Ok(UInt32)
      else if typeStr == "uint64" then Ok(UInt64)
      else Err(Exc(RuntimeError, "Invalid unsigned type."))
    else if typeStr == "float" then Ok(F32)
    else if typeStr == "double" then Ok(F64)
    else if typeStr == "string" then Ok(String)
    else Err(Exc(RuntimeError, "Invalid type."))
  }

  /** Every tag's name parses back to that tag. */
  lemma ParseTypeName(t: DataType)
    ensures ParseDataType(TypeName(t)) == Ok(t)
  {
  }

  /** Only the eleven names are accepted, each yields the tag it names (so the
      parse is injective), and a rejected name gets the message of its branch. */
  lemma ParseOnlyTypeNames(s: string)
    ensures ParseDataType(s).Ok? ==> TypeName(ParseDataType(s).value) == s
    ensures ParseDataType(s).Err? && FirstChar(s) == 'i' ==> ParseDataType(s).exc.what == "Invalid signed type."
    ensures ParseDataType(s).Err? && FirstChar(s) == 'u' ==> ParseDataType(s).exc.what == "Invalid unsigned type."
    ensures ParseDataType(s).Err? && FirstChar(s) != 'i' && FirstChar(s) != 'u' ==> ParseDataType(s).exc.what == "Invalid type."
    ensures ParseDataType("").Err? && ParseDataType("").exc.what == "Invalid type."
  {
  }
}
