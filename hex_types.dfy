/**
 * The value types of the Intel HEX engine (hexFileParser.h): fixed-width
 * integers, error kinds, diagnostics, chunks and address ranges.
 */
module HexTypes {
  import opened Wrappers

  const TWO_32: int := 0x1_0000_0000

  type byte = x: int | 0 <= x < 0x100
  type u16 = x: int | 0 <= x < 0x1_0000
  type u32 = x: int | 0 <= x < 0x1_0000_0000

  /** Conversion of an integer to uint32_t: C++ unsigned arithmetic keeps the low 32 bits. */
  function Wrap32(x: int): (r: u32)
    ensures 0 <= x < TWO_32 ==> r == x
    ensures TWO_32 <= x < 2 * TWO_32 ==> r == x - TWO_32
    ensures -TWO_32 <= x < 0 ==> r == x + TWO_32
  {
    x % TWO_32
  }

  /** Conversion of an integer to uint16_t. */
  function Wrap16(x: int): (r: u16)
    ensures 0 <= x < 0x1_0000 ==> r == x
  {
    x % 0x1_0000
  }

  /** n copies of a byte. */
  function Fill(n: nat, v: byte): (r: seq<byte>)
    ensures |r| == n && forall i :: 0 <= i < n ==> r[i] == v
  {
    seq(n, _ => v)
  }

  /** Adding a multiple of a leaves the remainder modulo a unchanged and adds the multiplier to the quotient. */
  lemma ModShift(a: int, q: int, r: int)
    requires a > 0
    ensures (a * q + r) % a == r % a && (a * q + r) / a == q + r / a
  {
    assert a * q + r == a * (q + r / a) + r % a;
    ModOfMultiplePlus(a, q + r / a, r % a);
  }

  /** Division and remainder of a known multiple plus a small rest. */
  lemma ModOfMultiplePlus(a: int, q: int, r: int)
    requires a > 0 && 0 <= r < a
    ensures (a * q + r) % a == r && (a * q + r) / a == q
  {
    var x := a * q + r;
    var d := q - x / a;
    assert x == a * (x / a) + x % a;
    assert a * d == x % a - r;
    assert d >= 1 ==> a * d >= a;
    assert d <= -1 ==> a * -d >= a;
  }

  /** The closed set of diagnostic kinds, in declaration order. */
  datatype ErrorType =
    | NoError
    | FileNotOpen
    | InvalidStartCode
    | InvalidLineLength
    | InvalidChecksum
    | InvalidRecordType
    | InvalidAddressByte
    | InvalidDataByte
    | AddressRangeTooLow
    | AddressRangeTooHigh

  /** A diagnostic: the 1-based line it was found on (0 for the file itself) and its kind. */
  datatype FileError = FileError(lineIndex: nat, error: ErrorType)

  /** A contiguous run of bytes starting at an absolute address. */
  datatype Chunk = Chunk(offset: u32, data: seq<byte>)

  /** Inclusive 32-bit address bounds. */
  datatype Range = Range(minimum: u32, maximum: u32)

  /** Record type codes; QuCLib holds them in a uint8_t, so any byte can arrive. */
  const DATA: byte := 0
  const END_OF_FILE: byte := 1
  const EXTENDED_SEGMENT_ADDRESS: byte := 2
  const START_SEGMENT_ADDRESS: byte := 3
  const EXTENDED_LINEAR_ADDRESS: byte := 4
  const START_LINEAR_ADDRESS: byte := 5

  /** The address one past the last byte of a chunk, without truncation. */
  function End(c: Chunk): int
  {
    c.offset + |c.data|
  }

  /** The fixed text of each diagnostic kind (HexFileParser::errorMessage). */
  function ErrorMessage(error: FileError): string
  {
    match error.error
    case NoError => "No Error"
    case FileNotOpen => "Could not open file"
    case InvalidStartCode => "Invalid start code"
    case InvalidLineLength => "Byte count doesn't match line length"
    case InvalidChecksum => "Invalid checksum"
    case InvalidRecordType => "Unsupported record type"
    case InvalidAddressByte => "Invalid address"
    case InvalidDataByte => "Invalid data"
    case AddressRangeTooLow => "Address out of range (lower minimum address)"
    case AddressRangeTooHigh => "Address out of range (higher maximum address)"
  }

  /** The kind a diagnostic text names, if it is one of the fixed texts. */
  function KindOfMessage(m: string): Option<ErrorType>
  {
    if m == "No Error" then Some(NoError)
    else if m == "Could not open file" then Some(FileNotOpen)
    else if m == "Invalid start code" then Some(InvalidStartCode)
    else if m == "Byte count doesn't match line length" then Some(InvalidLineLength)
    else if m == "Invalid checksum" then Some(InvalidChecksum)
    else if m == "Unsupported record type" then Some(InvalidRecordType)
    else if m == "Invalid address" then Some(InvalidAddressByte)
    else if m == "Invalid data" then Some(InvalidDataByte)
    else if m == "Address out of range (lower minimum address)" then Some(AddressRangeTooLow)
    else if m == "Address out of range (higher maximum address)" then Some(AddressRangeTooHigh)
    else None
  }

  lemma ErrorMessageDistinct(a: FileError)
    ensures KindOfMessage(ErrorMessage(a)) == Some(a.error)
    ensures KindOfMessage("Unknwon Error") == None
  {
  }
}
