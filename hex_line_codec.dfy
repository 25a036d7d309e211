/**
 * The line codec of the Intel HEX engine: one trimmed text line
 * ':' count(2) address(4) type(2) data(2*count) checksum(2)
 * to and from a record (HexFileParser::_parseLine's checks and the
 * byte layout that HexFileParser::saveToFile writes).
 */
module HexLineCodec {
  import opened Wrappers
  import opened HexTypes

  /** A decoded record: the byte count, the 16-bit address field, the type code and the data bytes. */
  datatype Record = Record(byteCount: byte, address: u16, recordType: byte, data: seq<byte>)

  // ---------------------------------------------------------------- hex digits

  predicate IsHexDigit(c: char)
  {
    '0' <= c <= '9' || 'a' <= c <= 'f' || 'A' <= c <= 'F'
  }

  function DigitValue(c: char): (v: int)
    requires IsHexDigit(c)
    ensures 0 <= v < 16
  {
    if '0' <= c <= '9' then c as int - '0' as int
    else if 'a' <= c <= 'f' then c as int - 'a' as int + 10
    else c as int - 'A' as int + 10
  }

  /** Two hex digits, either case, as one byte. */
  function HexPair(hi: char, lo: char): (r: Option<byte>)
    ensures r.Some? <==> IsHexDigit(hi) && IsHexDigit(lo)
  {
    if IsHexDigit(hi) && IsHexDigit(lo) then Some(16 * DigitValue(hi) + DigitValue(lo)) else None
  }

  /** The byte written as the two characters at pos and pos + 1 of a line (line.mid(pos, 2)). */
  function ByteField(line: string, pos: nat): (r: Option<byte>)
    ensures r.Some? <==> pos + 2 <= |line| && IsHexDigit(line[pos]) && IsHexDigit(line[pos + 1])
  {
    if pos + 2 <= |line| then HexPair(line[pos], line[pos + 1]) else None
  }

  /** A non-empty string of hex digits as a number; None for an empty string or any other character. */
  function HexNumber(s: string): (r: Option<nat>)
    ensures r.Some? <==> |s| > 0 && forall i :: 0 <= i < |s| ==> IsHexDigit(s[i])
    decreases |s|
  {
    if |s| == 0 || !IsHexDigit(s[|s| - 1]) then None
    else if |s| == 1 then Some(DigitValue(s[0]))
    else match HexNumber(s[..|s| - 1])
      case None => None
      case Some(v) => assert forall i :: 0 <= i < |s| - 1 ==> s[..|s| - 1][i] == s[i]; Some(16 * v + DigitValue(s[|s| - 1]))
  }

  /** The n data bytes that follow the 9-character header of a line. */
  function DataField(line: string, n: nat): (r: Option<seq<byte>>)
    ensures r.Some? <==> forall k :: 0 <= k < n ==> ByteField(line, 9 + 2 * k).Some?
    ensures r.Some? ==> |r.value| == n && forall k :: 0 <= k < n ==> r.value[k] == ByteField(line, 9 + 2 * k).value
  {
    if n == 0 then Some([])
    else match DataField(line, n - 1)
      case None => None
      case Some(prefix) =>
        match ByteField(line, 9 + 2 * (n - 1))
        case None => None
        case Some(b) => Some(prefix + [b])
  }

  // ---------------------------------------------------------------- checksum

  /** The plain sum of a byte sequence. */
  function Sum(bs: seq<byte>): nat
    decreases |bs|
  {
    if bs == [] then 0 else Sum(bs[..|bs| - 1]) + bs[|bs| - 1]
  }

  lemma {:induction false} SumAppend(a: seq<byte>, b: seq<byte>)
    ensures Sum(a + b) == Sum(a) + Sum(b)
    decreases |b|
  {
    if b == [] {
      assert a + b == a;
    } else {
      assert (a + b)[..|a + b| - 1] == a + b[..|b| - 1];
      SumAppend(a, b[..|b| - 1]);
    }
  }

  /** The two's-complement checksum the writer appends (HexFileParser::_calculateChecksum). */
  function Checksum(body: seq<byte>): (c: byte)
    ensures (Sum(body) + c) % 256 == 0
  {
    (0xFF - Sum(body) % 256 + 1) % 256
  }

  /** The checksum byte is the only byte that brings the sum to zero. */
  lemma ChecksumUnique(body: seq<byte>, c: byte)
    requires (Sum(body) + c) % 256 == 0
    ensures c == Checksum(body)
  {
    var q := Sum(body) / 256;
    var s := Sum(body) % 256;
    assert Sum(body) + c == 256 * q + (s + c);
    ModMultiple(q, s + c);
  }

  lemma ModMultiple(q: int, x: int)
    requires 0 <= x < 512
    ensures (256 * q + x) % 256 == x % 256
  {
    var y := 256 * q + x;
    assert y == 256 * (q + y / 256 - q) + y % 256;
  }

  // ---------------------------------------------------------------- decoding

  /**
   * The checks of one line in QuCLib's order; the first one that fails
   * decides the error kind.
   */
  function DecodeLine(line: string): (r: Result<Record, ErrorType>)
    requires |line| > 0
  {
    if line[0] != ':' then Err(InvalidStartCode)
    else
      var count := ByteField(line, 1);
      if count.None? || 2 * count.value + 11 != |line| then Err(InvalidLineLength)
      else
        var n := count.value;
        var recordType := ByteField(line, 7);
        if recordType.None? then Err(InvalidRecordType)
        else
          var addressHigh := ByteField(line, 3);
          if addressHigh.None? then Err(InvalidAddressByte)
          else
            var addressLow := ByteField(line, 5);
            if addressLow.None? then Err(InvalidAddressByte)
            else
              var data := DataField(line, n);
              if data.None? then Err(InvalidDataByte)
              else
                var checksum := ByteField(line, |line| - 2);
                if checksum.None?
                   || Sum([n, addressHigh.value, addressLow.value, recordType.value] + data.value + [checksum.value]) % 256 != 0
                then Err(InvalidChecksum)
                else Ok(Record(n, addressHigh.value * 256 + addressLow.value, recordType.value, data.value))
  }

  /** Every character after the start code is a hex digit. */
  predicate AllHex(line: string)
  {
    forall i :: 1 <= i < |line| ==> IsHexDigit(line[i])
  }

  /** The bytes written after the start code of a line made of ':' and hex digit pairs. */
  function LineBytes(line: string): (b: seq<byte>)
    requires |line| % 2 == 1 && AllHex(line)
    ensures |b| == (|line| - 1) / 2
    ensures forall k :: 0 <= k < |b| ==> b[k] == PairValue(line, k)
  {
    seq((|line| - 1) / 2, k requires 0 <= k < (|line| - 1) / 2 => PairValue(line, k))
  }

  /** The value of the k-th digit pair after the start code. */
  function PairValue(line: string, k: nat): byte
    requires |line| % 2 == 1 && AllHex(line) && k < (|line| - 1) / 2
  {
    16 * DigitValue(line[1 + 2 * k]) + DigitValue(line[2 + 2 * k])
  }

  /**
   * A line as the record format defines it, stated without the order of the
   * checks: a start code, hex digit pairs only, a byte count that matches the
   * length, and bytes that sum to zero modulo 256.
   */
  predicate WellFormedLine(line: string)
  {
    |line| >= 11 && |line| % 2 == 1 && line[0] == ':' && AllHex(line)
    && |line| == 2 * (LineBytes(line)[0] as int) + 11
    && Sum(LineBytes(line)) % 256 == 0
  }

  lemma ByteFieldAt(line: string, k: nat)
    requires |line| % 2 == 1 && AllHex(line) && k < (|line| - 1) / 2
    ensures ByteField(line, 1 + 2 * k) == Some(LineBytes(line)[k])
  {
  }

  lemma SumOfFour(a: byte, b: byte, c: byte, d: byte)
    ensures Sum([a, b, c, d]) == a + b + c + d
  {
    calc {
      Sum([a, b, c, d]);
      { assert [a, b, c, d][..3] == [a, b, c]; }
      Sum([a, b, c]) + d;
      { assert [a, b, c][..2] == [a, b]; }
      Sum([a, b]) + c + d;
      { assert [a, b][..1] == [a]; }
      Sum([a]) + b + c + d;
      { SumOfOne(a); }
      a + b + c + d;
    }
  }

  lemma SumOfOne(a: byte)
    ensures Sum([a]) == a
  {
    assert [a][..0] == [];
  }

  /** What a successful decode has checked, field by field, and the record it builds from the fields. */
  lemma DecodedFields(line: string)
    requires |line| > 0 && DecodeLine(line).Ok?
    ensures line[0] == ':'
    ensures ByteField(line, 1).Some? && |line| == 2 * (ByteField(line, 1).value as int) + 11
    ensures ByteField(line, 3).Some? && ByteField(line, 5).Some? && ByteField(line, 7).Some?
    ensures DataField(line, ByteField(line, 1).value).Some? && ByteField(line, |line| - 2).Some?
    ensures
      var n := ByteField(line, 1).value;
      var hi := ByteField(line, 3).value;
      var lo := ByteField(line, 5).value;
      var t := ByteField(line, 7).value;
      var data := DataField(line, n).value;
      Sum([n, hi, lo, t] + data + [ByteField(line, |line| - 2).value]) % 256 == 0
      && DecodeLine(line).value == Record(n, hi * 256 + lo, t, data)
  {
  }

  /** A line whose fields all read as bytes has hex digits in every position after the start code. */
  lemma FieldsAreHex(line: string, n: nat)
    requires |line| == 2 * n + 11
    requires ByteField(line, 1).Some? && ByteField(line, 3).Some? && ByteField(line, 5).Some? && ByteField(line, 7).Some?
    requires DataField(line, n).Some? && ByteField(line, |line| - 2).Some?
    ensures |line| % 2 == 1 && AllHex(line)
  {
    forall k | 0 <= k < (|line| - 1) / 2 ensures ByteField(line, 1 + 2 * k).Some? {
      if 4 <= k < 4 + n {
        assert 1 + 2 * k == 9 + 2 * (k - 4);
        assert ByteField(line, 9 + 2 * (k - 4)).Some?;
      }
    }
    forall i | 1 <= i < |line| ensures IsHexDigit(line[i]) {
      var k := (i - 1) / 2;
      assert ByteField(line, 1 + 2 * k).Some?;
    }
  }

  /** The bytes of a hex line of the right length, split into header, data and checksum fields. */
  lemma LineBytesLayout(line: string, b: seq<byte>, n: nat)
    requires |line| % 2 == 1 && AllHex(line) && |line| >= 11
    requires b == LineBytes(line) && |line| == 2 * n + 11
    ensures ByteField(line, 1) == Some(b[0]) && ByteField(line, 3) == Some(b[1])
    ensures ByteField(line, 5) == Some(b[2]) && ByteField(line, 7) == Some(b[3])
    ensures ByteField(line, |line| - 2) == Some(b[|b| - 1])
    ensures DataField(line, n) == Some(b[4..|b| - 1])
    ensures b == [b[0], b[1], b[2], b[3]] + b[4..|b| - 1] + [b[|b| - 1]]
  {
    HeaderFields(line);
    ByteFieldAt(line, n + 4);
    assert |line| - 2 == 1 + 2 * (n + 4);
    DataFieldAt(line, b, n);
    SplitFields(b);
  }

  lemma HeaderFields(line: string)
    requires |line| % 2 == 1 && AllHex(line) && |line| >= 11
    ensures ByteField(line, 1) == Some(LineBytes(line)[0]) && ByteField(line, 3) == Some(LineBytes(line)[1])
    ensures ByteField(line, 5) == Some(LineBytes(line)[2]) && ByteField(line, 7) == Some(LineBytes(line)[3])
  {
    ByteFieldAt(line, 0);
    ByteFieldAt(line, 1);
    ByteFieldAt(line, 2);
    ByteFieldAt(line, 3);
  }

  lemma SplitFields(b: seq<byte>)
    requires |b| >= 5
    ensures b == [b[0], b[1], b[2], b[3]] + b[4..|b| - 1] + [b[|b| - 1]]
  {
  }

  lemma DataFieldAt(line: string, b: seq<byte>, n: nat)
    requires |line| % 2 == 1 && AllHex(line) && |line| >= 11
    requires b == LineBytes(line) && |line| == 2 * n + 11
    ensures DataField(line, n) == Some(b[4..|b| - 1])
  {
    DataFieldPrefix(line, b, n);
  }

  lemma {:induction false} DataFieldPrefix(line: string, b: seq<byte>, m: nat)
    requires |line| % 2 == 1 && AllHex(line)
    requires b == LineBytes(line) && 4 + m <= |b|
    ensures DataField(line, m) == Some(b[4..4 + m])
  {
    if m > 0 {
      DataFieldPrefix(line, b, m - 1);
      ByteFieldAt(line, 4 + m - 1);
      assert 1 + 2 * (4 + m - 1) == 9 + 2 * (m - 1);
      assert b[4..4 + m] == b[4..4 + m - 1] + [b[4 + m - 1]];
    }
  }

  /** The record whose fields are the given line bytes in order: count, address high and low, type, data, checksum. */
  function RecordOfBytes(b: seq<byte>): Record
    requires |b| >= 5
  {
    Record(b[0], (b[1] as int) * 256 + b[2], b[3], b[4..|b| - 1])
  }

  lemma DecodedWellFormed(line: string)
    requires |line| > 0 && DecodeLine(line).Ok?
    ensures WellFormedLine(line) && DecodeLine(line).value == RecordOfBytes(LineBytes(line))
  {
    DecodedFields(line);
    FieldsAreHex(line, ByteField(line, 1).value);
    var b := LineBytes(line);
    ByteFieldAt(line, 0);
    LineBytesLayout(line, b, b[0]);
  }

  lemma WellFormedDecodes(line: string)
    requires WellFormedLine(line)
    ensures DecodeLine(line) == Ok(RecordOfBytes(LineBytes(line)))
  {
    var b := LineBytes(line);
    ByteFieldAt(line, 0);
    LineBytesLayout(line, b, b[0]);
  }

  /** A line passes every check exactly when it is well formed, and the record's fields are then its bytes in order. */
  lemma DecodeLineAccepts(line: string)
    requires |line| > 0
    ensures DecodeLine(line).Ok? <==> WellFormedLine(line)
    ensures DecodeLine(line).Ok? ==> DecodeLine(line).value == RecordOfBytes(LineBytes(line))
  {
    if DecodeLine(line).Ok? {
      DecodedWellFormed(line);
    }
    if WellFormedLine(line) {
      WellFormedDecodes(line);
    }
  }

  // ---------------------------------------------------------------- encoding

  /** An upper-case hex digit. */
  function HexChar(d: int): (c: char)
    requires 0 <= d < 16
    ensures IsUpperHexDigit(c) && DigitValue(c) == d
  {
    if d < 10 then ('0' as int + d) as char else ('A' as int + d - 10) as char
  }

  /** Bytes as upper-case hex, two digits each (QByteArray::toHex followed by toUpper). */
  function HexString(bs: seq<byte>): (s: string)
    ensures |s| == 2 * |bs|
    ensures forall k :: 0 <= k < |bs| ==> s[2 * k] == HexChar(bs[k] / 16) && s[2 * k + 1] == HexChar(bs[k] % 16)
    decreases |bs|
  {
    if bs == [] then ""
    else HexString(bs[..|bs| - 1]) + [HexChar(bs[|bs| - 1] / 16), HexChar(bs[|bs| - 1] % 16)]
  }

  /** The bytes of a record before its checksum: count, address high, address low, type, data. */
  function RecordBody(r: Record): seq<byte>
  {
    [r.byteCount, r.address / 256, r.address % 256, r.recordType] + r.data
  }

  /** A record as a line: ':' then every byte, checksum last, in upper-case hex. */
  function EncodeRecord(r: Record): (line: string)
    ensures |line| == 2 * |r.data| + 11 && line[0] == ':'
  {
    ":" + HexString(RecordBody(r) + [Checksum(RecordBody(r))])
  }

  predicate IsUpperHexDigit(c: char)
  {
    '0' <= c <= '9' || 'A' <= c <= 'F'
  }

  /** Upper-case hex after the start code, as the writer produces. */
  predicate UpperHex(line: string)
  {
    forall i :: 1 <= i < |line| ==> IsUpperHexDigit(line[i])
  }

  lemma HexStringChar(bs: seq<byte>, j: nat)
    requires j < 2 * |bs|
    ensures HexString(bs)[j] == if j % 2 == 0 then HexChar(bs[j / 2] / 16) else HexChar(bs[j / 2] % 16)
  {
    var k := j / 2;
    assert j == 2 * k || j == 2 * k + 1;
  }

  /** ':' followed by the hex of some bytes is upper-case hex whose bytes are those bytes. */
  lemma HexLineBytes(bs: seq<byte>)
    ensures AllHex(":" + HexString(bs)) && UpperHex(":" + HexString(bs))
    ensures LineBytes(":" + HexString(bs)) == bs
  {
    HexLineUpper(bs);
    HexLineValues(bs);
  }

  lemma HexLineUpper(bs: seq<byte>)
    ensures UpperHex(":" + HexString(bs)) && AllHex(":" + HexString(bs))
  {
    var line := ":" + HexString(bs);
    forall i | 1 <= i < |line| ensures IsUpperHexDigit(line[i]) {
      assert line[i] == HexString(bs)[i - 1];
      HexStringChar(bs, i - 1);
    }
  }

  lemma HexLineValues(bs: seq<byte>)
    requires AllHex(":" + HexString(bs))
    ensures LineBytes(":" + HexString(bs)) == bs
  {
    var line := ":" + HexString(bs);
    var b := LineBytes(line);
    forall k | 0 <= k < |b| ensures b[k] == bs[k] {
      assert line[1 + 2 * k] == HexChar(bs[k] / 16);
      assert line[2 + 2 * k] == HexChar(bs[k] % 16);
      PairOfHexChars(bs[k]);
    }
  }

  /** The two digits written for a byte read back as that byte. */
  lemma PairOfHexChars(x: byte)
    ensures 16 * DigitValue(HexChar(x / 16)) + DigitValue(HexChar(x % 16)) == x
  {
  }

  lemma EncodedBytes(r: Record)
    ensures AllHex(EncodeRecord(r)) && UpperHex(EncodeRecord(r))
    ensures LineBytes(EncodeRecord(r)) == RecordBody(r) + [Checksum(RecordBody(r))]
  {
    HexLineBytes(RecordBody(r) + [Checksum(RecordBody(r))]);
  }

  /** Reading back what was written: a line made by EncodeRecord decodes to the same record. */
  lemma EncodeDecodeRecord(r: Record)
    requires r.byteCount == |r.data|
    ensures DecodeLine(EncodeRecord(r)) == Ok(r)
    ensures WellFormedLine(EncodeRecord(r)) && UpperHex(EncodeRecord(r))
  {
    EncodingWellFormed(r);
    WellFormedDecodes(EncodeRecord(r));
    RecordOfBody(r, Checksum(RecordBody(r)));
  }

  /** The decoding half of EncodeDecodeRecord alone. */
  lemma EncodeDecodes(r: Record)
    requires r.byteCount == |r.data|
    ensures |EncodeRecord(r)| > 0 && DecodeLine(EncodeRecord(r)) == Ok(r)
  {
    EncodeDecodeRecord(r);
  }

  lemma EncodingWellFormed(r: Record)
    requires r.byteCount == |r.data|
    ensures WellFormedLine(EncodeRecord(r)) && UpperHex(EncodeRecord(r))
    ensures LineBytes(EncodeRecord(r)) == RecordBody(r) + [Checksum(RecordBody(r))]
  {
    EncodedBytes(r);
    SumWithChecksum(RecordBody(r));
  }

  /** A body followed by its checksum sums to zero modulo 256. */
  lemma SumWithChecksum(body: seq<byte>)
    ensures Sum(body + [Checksum(body)]) % 256 == 0
  {
    var b := body + [Checksum(body)];
    assert b[..|b| - 1] == body;
  }

  /** The record spelled by a body and any checksum byte after it is the record the body came from. */
  lemma RecordOfBody(r: Record, c: byte)
    ensures RecordOfBytes(RecordBody(r) + [c]) == r
  {
    var b := RecordBody(r) + [c];
    AddressSplit(r.address / 256, r.address % 256);
    assert b[4..|b| - 1] == r.data;
  }

  /** The address field's two bytes are its quotient and remainder by 256. */
  lemma AddressSplit(hi: byte, lo: byte)
    ensures (hi * 256 + lo) / 256 == hi && (hi * 256 + lo) % 256 == lo
  {
  }

  /** The body of the record read from some line bytes is those bytes without the checksum. */
  lemma RecordBodyOfBytes(b: seq<byte>)
    requires |b| >= 5
    ensures RecordBody(RecordOfBytes(b)) == b[..|b| - 1]
  {
    AddressSplit(b[1], b[2]);
  }

  /** Two upper-case hex lines with the same start code and the same bytes are the same line. */
  lemma UpperLinesEqual(x: string, y: string)
    requires |x| == |y| && |x| % 2 == 1 && |x| > 0 && x[0] == y[0]
    requires AllHex(x) && AllHex(y) && UpperHex(x) && UpperHex(y)
    requires LineBytes(x) == LineBytes(y)
    ensures x == y
  {
    forall i | 0 <= i < |x| ensures x[i] == y[i] {
      if i > 0 {
        var k := (i - 1) / 2;
        assert PairValue(x, k) == PairValue(y, k);
        UpperDigitDetermined(x[1 + 2 * k], y[1 + 2 * k]);
        UpperDigitDetermined(x[2 + 2 * k], y[2 + 2 * k]);
        assert i == 1 + 2 * k || i == 2 + 2 * k;
      }
    }
  }

  /** An upper-case well-formed line is the encoding of the record its bytes spell. */
  lemma EncodeRecordOfBytes(line: string)
    requires WellFormedLine(line) && UpperHex(line)
    ensures EncodeRecord(RecordOfBytes(LineBytes(line))) == line
  {
    var b := LineBytes(line);
    ChecksumIsLast(b);
    RecordBodyOfBytes(b);
    assert b[..|b| - 1] + [b[|b| - 1]] == b;
    HexOfLineBytes(line);
  }

  /** In bytes that sum to zero modulo 256, the last byte is the checksum of the others. */
  lemma ChecksumIsLast(b: seq<byte>)
    requires |b| > 0 && Sum(b) % 256 == 0
    ensures Checksum(b[..|b| - 1]) == b[|b| - 1]
  {
    ChecksumUnique(b[..|b| - 1], b[|b| - 1]);
  }

  /** An upper-case hex line is ':' followed by the hex of its own bytes. */
  lemma HexOfLineBytes(line: string)
    requires |line| % 2 == 1 && line[0] == ':' && AllHex(line) && UpperHex(line)
    ensures ":" + HexString(LineBytes(line)) == line
  {
    HexLineBytes(LineBytes(line));
    UpperLinesEqual(":" + HexString(LineBytes(line)), line);
  }

  /** And the other way round: an upper-case well-formed line is exactly the encoding of what it decodes to. */
  lemma DecodeEncodeLine(line: string)
    requires WellFormedLine(line) && UpperHex(line)
    ensures DecodeLine(line).Ok? && EncodeRecord(DecodeLine(line).value) == line
  {
    WellFormedDecodes(line);
    EncodeRecordOfBytes(line);
  }

  /** An upper-case hex digit is determined by its value. */
  lemma UpperDigitDetermined(a: char, b: char)
    requires IsUpperHexDigit(a) && IsUpperHexDigit(b)
    ensures DigitValue(a) == DigitValue(b) ==> a == b
  {
  }
}
