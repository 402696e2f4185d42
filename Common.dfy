/** Shared vocabulary: bytes, the exceptions the C++ code throws, and the
    text formatting the program performs with fmt. */
module Common {

  /** One byte of process memory (uint8_t). */
  type byte = x: int | 0 <= x < 256

  /** 2^64: the range of `unsigned long` and `size_t` on the targeted Linux ABI. */
  const ULONG_MODULUS: nat := 0x1_0000_0000_0000_0000

  /** The standard exception classes the program throws and catches. */
  datatype ExcKind = RuntimeError | InvalidArgument | OutOfRange

  /** A thrown exception: its class and its what() text. */
  datatype Exc = Exc(kind: ExcKind, what: string)

  /** The value of an operation that either returns or throws. */
  datatype Result<T> = Ok(value: T) | Err(exc: Exc) {
    predicate IsFailure() { Err? }
    function PropagateFailure<U>(): Result<U>
      requires Err?
    {
      Err(exc)
    }
    function Extract(): T
      requires Ok?
    {
      value
    }
  }

  /** A `void` operation that either returns or throws. */
  datatype Outcome = Done | Fail(exc: Exc)

  /** A text whose every character is one byte, as in a `std::string`. */
  predicate IsByteString(s: string) {
    forall k :: 0 <= k < |s| ==> s[k] as int < 256
  }

  /** The bytes of a `std::string`, one per character. */
  function StringBytes(s: string): (r: seq<byte>)
    requires IsByteString(s)
    ensures |r| == |s|
    ensures forall k :: 0 <= k < |s| ==> r[k] == s[k] as int
  {
    seq(|s|, k requires 0 <= k < |s| => s[k] as int)
  }

  /** Two texts have the same bytes exactly when they are the same text. */
  lemma StringBytesInjective(a: string, b: string)
    requires IsByteString(a) && IsByteString(b)
    ensures StringBytes(a) == StringBytes(b) <==> a == b
  {
    if StringBytes(a) == StringBytes(b) {
      forall k | 0 <= k < |a|
        ensures a[k] == b[k]
      {
        assert StringBytes(a)[k] == StringBytes(b)[k];
      }
    }
  }

  // ---------------------------------------------------------------------
  // Hexadecimal text, as printed by fmt "{:x}" and read by std::stoul(s, nullptr, 16)

  function HexDigit(d: nat): (c: char)
    requires d < 16
  {
    if d < 10 then ('0' as int + d) as char else ('a' as int + d - 10) as char
  }

  predicate IsHexChar(c: char) {
    ('0' <= c <= '9') || ('a' <= c <= 'f') || ('A' <= c <= 'F')
  }

  function HexCharValue(c: char): (d: nat)
    requires IsHexChar(c)
    ensures d < 16
  {
    if '0' <= c <= '9' then c as int - '0' as int
    else if 'a' <= c <= 'f' then c as int - 'a' as int + 10
    else c as int - 'A' as int + 10
  }

  /** fmt "{:x}": lower-case hexadecimal digits, no prefix, no padding. */
  function HexString(n: nat): (s: string)
    ensures |s| >= 1
    ensures forall k :: 0 <= k < |s| ==> IsHexChar(s[k])
    decreases n
  {
    if n < 16 then [HexDigit(n)] else HexString(n / 16) + [HexDigit(n % 16)]
  }

  /** The value of a string made of hexadecimal digits only. */
  function HexValue(s: string): nat
    requires forall k :: 0 <= k < |s| ==> IsHexChar(s[k])
  {
    if s == [] then 0 else HexValue(s[..|s| - 1]) * 16 + HexCharValue(s[|s| - 1])
  }

  /** The length of the longest prefix of `s` made of hexadecimal digits. */
  function HexPrefixLength(s: string): (k: nat)
    ensures k <= |s|
    ensures forall j :: 0 <= j < k ==> IsHexChar(s[j])
    ensures k < |s| ==> !IsHexChar(s[k])
  {
    if s == [] || !IsHexChar(s[0]) then 0 else 1 + HexPrefixLength(s[1..])
  }

  /** std::stoul(s, nullptr, 16): reads the leading hexadecimal digits, throws
      invalid_argument when there are none and out_of_range when the value does
      not fit an unsigned long. */
  function StoulHex(s: string): (r: Result<nat>)
    ensures r.Ok? ==> r.value < ULONG_MODULUS
  {
    var k := HexPrefixLength(s);
    if k == 0 then Err(Exc(InvalidArgument, "stoul"))
    else
      var v := HexValue(s[..k]);
      if v < ULONG_MODULUS then Ok(v) else Err(Exc(OutOfRange, "stoul"))
  }

  lemma {:induction false} HexValueOfHexString(n: nat)
    ensures HexValue(HexString(n)) == n
    decreases n
  {
    if n >= 16 {
      var s := HexString(n);
      assert s[..|s| - 1] == HexString(n / 16);
      HexValueOfHexString(n / 16);
    }
  }

  /** What fmt "{:x}" prints for an address, std::stoul(..., 16) reads back. */
  lemma StoulHexString(n: nat)
    requires n < ULONG_MODULUS
    ensures StoulHex(HexString(n)) == Ok(n)
  {
    var s := HexString(n);
    assert HexPrefixLength(s) == |s| by {
      HexPrefixOfHexOnly(s);
    }
    assert s[..|s|] == s;
    HexValueOfHexString(n);
  }

  lemma {:induction false} HexPrefixOfHexOnly(s: string)
    requires forall k :: 0 <= k < |s| ==> IsHexChar(s[k])
    ensures HexPrefixLength(s) == |s|
  {
    if s != [] {
      HexPrefixOfHexOnly(s[1..]);
    }
  }

  /** fmt "{:#018x}": "0x", then the digits zero-padded to 16. */
  function HexAddress(n: nat): string {
    var digits := HexString(n);
    "0x" + (if |digits| < 16 then seq(16 - |digits|, _ => '0') else []) + digits
  }

  // ---------------------------------------------------------------------
  // Decimal text, as printed by fmt "{}"

  function DecimalDigits(n: nat): (s: string)
    ensures |s| >= 1
    decreases n
  {
    if n < 10 then [('0' as int + n) as char]
    else DecimalDigits(n / 10) + [('0' as int + n % 10) as char]
  }

  function DecimalString(n: int): string {
    if n < 0 then "-" + DecimalDigits(-n) else DecimalDigits(n)
  }
}
