/**
 * The record interpreter of the Intel HEX engine: what one checked line does
 * to the parse state (HexFileParser::_parseLine after its checks), and the
 * fold of that step over the lines of a file (the loop of HexFileParser::load).
 */
module HexRecordInterpreter {
  import opened Wrappers
  import opened HexTypes
  import opened HexLineCodec

  /**
   * The part of the parser that reading lines changes: the upper address
   * bits set by 02/04 records, the address range seen in the file, the
   * stored fragments and the two diagnostic lists.
   */
  datatype Session = Session(high: u32, fileAddress: Range, binary: seq<Chunk>, errors: seq<FileError>, warnings: seq<FileError>)

  function Min(a: u32, b: u32): u32 { if a <= b then a else b }
  function Max(a: u32, b: u32): u32 { if a <= b then b else a }

  /**
   * The address field of a 02/04 record: the (up to) four characters from
   * position 9 as one hex number (line.mid(9, 4)). For a record with fewer
   * than two data bytes these characters include the checksum.
   */
  function AddressField(line: string): (r: Option<nat>)
    ensures |line| <= 9 ==> r.None?
  {
    if |line| <= 9 then None else HexNumber(line[9..if |line| < 13 then |line| else 13])
  }

  /** The window test and the store step of a Data record (start address, end address, data). */
  function ApplyData(s: Session, window: Range, index: nat, start: u32, end: u32, data: seq<byte>): Session
  {
    var s1 := s.(fileAddress := Range(Min(s.fileAddress.minimum, start), Max(s.fileAddress.maximum, end)));
    if window.minimum > start then s1.(warnings := s1.warnings + [FileError(index, AddressRangeTooLow)])
    else if window.maximum < end then s1.(warnings := s1.warnings + [FileError(index, AddressRangeTooHigh)])
    else s1.(binary := s1.binary + [Chunk(start, data)])
  }

  /** What a record that passed every check does to the session. */
  function ApplyRecord(s: Session, window: Range, index: nat, line: string, r: Record): Session
  {
    if r.recordType == DATA then
      var start := Wrap32(s.high + r.address);
      var end := Wrap32(s.high + r.address + r.byteCount - 1);
      ApplyData(s, window, index, start, end, r.data)
    else if r.recordType == END_OF_FILE || r.recordType == START_SEGMENT_ADDRESS || r.recordType == START_LINEAR_ADDRESS then s
    else if r.recordType == EXTENDED_LINEAR_ADDRESS || r.recordType == EXTENDED_SEGMENT_ADDRESS then
      var shift := if r.recordType == EXTENDED_LINEAR_ADDRESS then 0x1_0000 else 0x10;
      match AddressField(line)
      case None => s.(high := 0, errors := s.errors + [FileError(index, InvalidAddressByte)])
      case Some(v) => s.(high := Wrap32(v * shift))
    else s.(errors := s.errors + [FileError(index, InvalidRecordType)])
  }

  /** One trimmed line, numbered index, applied to the session (HexFileParser::_parseLine). */
  function Interpret(s: Session, window: Range, index: nat, line: string): Session
    requires |line| > 0
  {
    match DecodeLine(line)
    case Err(e) => s.(errors := s.errors + [FileError(index, e)])
    case Ok(r) => ApplyRecord(s, window, index, line, r)
  }

  /** A line that decodes to r does what r does. */
  lemma InterpretDecoded(s: Session, window: Range, index: nat, line: string, r: Record)
    requires |line| > 0 && DecodeLine(line) == Ok(r)
    ensures Interpret(s, window, index, line) == ApplyRecord(s, window, index, line, r)
  {
  }

  predicate NonEmptyLines(lines: seq<string>)
  {
    forall i :: 0 <= i < |lines| ==> |lines[i]| > 0
  }

  /** The lines applied in order, the k-th line (from 0) numbered k + 1. */
  function InterpretLines(s: Session, window: Range, lines: seq<string>): Session
    requires NonEmptyLines(lines)
    decreases |lines|
  {
    if lines == [] then s
    else Interpret(InterpretLines(s, window, lines[..|lines| - 1]), window, |lines|, lines[|lines| - 1])
  }

  /** One more line is applied after the others, numbered one past them. */
  lemma InterpretLinesSnoc(s: Session, window: Range, lines: seq<string>, line: string)
    requires NonEmptyLines(lines) && |line| > 0
    ensures NonEmptyLines(lines + [line])
    ensures InterpretLines(s, window, lines + [line]) == Interpret(InterpretLines(s, window, lines), window, |lines| + 1, line)
  {
    assert (lines + [line])[..|lines|] == lines;
  }

  /** The session load starts from: everything but the warnings reset. */
  function StartSession(warnings: seq<FileError>): (s: Session)
    ensures s.binary == [] && s.errors == [] && s.warnings == warnings && s.high == 0
    ensures s.fileAddress == Range(0xFFFF_FFFF, 0)
  {
    Session(0, Range(0xFFFF_FFFF, 0), [], [], warnings)
  }

  // ---------------------------------------------------------------- one line

  /** The decoder reports only the six kinds that describe a malformed line. */
  lemma DecodeErrorKinds(line: string)
    requires |line| > 0 && DecodeLine(line).Err?
    ensures DecodeLine(line).error in {InvalidStartCode, InvalidLineLength, InvalidRecordType, InvalidAddressByte, InvalidDataByte, InvalidChecksum}
  {
  }

  /** Every character between the start code and the checksum field is a hex digit. */
  predicate FieldsHex(line: string)
  {
    forall i :: 1 <= i < |line| - 2 ==> IsHexDigit(line[i])
  }

  /**
   * A line that starts with ':' and whose byte count matches its length is
   * rejected for its type, address or data field exactly when some character
   * before the checksum field is not a hex digit.
   */
  lemma FieldErrorMeaning(line: string)
    requires |line| > 0 && line[0] == ':' && ByteField(line, 1).Some? && |line| == 2 * (ByteField(line, 1).value as int) + 11
    ensures DecodeLine(line).Err? && DecodeLine(line).error in {InvalidRecordType, InvalidAddressByte, InvalidDataByte} <==> !FieldsHex(line)
  {
    if FieldsHex(line) {
      HexFieldsRead(line, ByteField(line, 1).value);
    }
    if DecodeLine(line).Ok? || DecodeLine(line) == Err(InvalidChecksum) {
      PassedFields(line);
      HeaderDataHex(line, ByteField(line, 1).value);
    }
  }

  /** The fields before the checksum of a line that is all hex there read as bytes. */
  lemma HexFieldsRead(line: string, n: nat)
    requires |line| == 2 * n + 11 && FieldsHex(line)
    ensures ByteField(line, 3).Some? && ByteField(line, 5).Some? && ByteField(line, 7).Some?
    ensures DataField(line, n).Some?
  {
    forall k | 0 <= k < n ensures ByteField(line, 9 + 2 * k).Some? {
      assert IsHexDigit(line[9 + 2 * k]) && IsHexDigit(line[10 + 2 * k]);
    }
  }

  /** The characters of fields that read as bytes are hex digits. */
  lemma HeaderDataHex(line: string, n: nat)
    requires |line| == 2 * n + 11
    requires ByteField(line, 1).Some? && ByteField(line, 3).Some? && ByteField(line, 5).Some? && ByteField(line, 7).Some?
    requires DataField(line, n).Some?
    ensures FieldsHex(line)
  {
    forall i | 1 <= i < |line| - 2 ensures IsHexDigit(line[i]) {
      var k := (i - 1) / 2;
      if 4 <= k {
        assert 1 + 2 * k == 9 + 2 * (k - 4);
        assert ByteField(line, 9 + 2 * (k - 4)).Some?;
      }
      assert ByteField(line, 1 + 2 * k).Some?;
    }
  }

  /** What a line that is accepted or fails only at the checksum has passed. */
  lemma PassedFields(line: string)
    requires |line| > 0 && (DecodeLine(line).Ok? || DecodeLine(line) == Err(InvalidChecksum))
    ensures line[0] == ':' && ByteField(line, 1).Some? && |line| == 2 * (ByteField(line, 1).value as int) + 11
    ensures ByteField(line, 3).Some? && ByteField(line, 5).Some? && ByteField(line, 7).Some?
    ensures DataField(line, ByteField(line, 1).value).Some?
  {
  }

  /** A line of hex digits with a matching byte count is rejected at the checksum exactly when its bytes do not sum to zero modulo 256. */
  lemma ChecksumErrorMeaning(line: string)
    requires |line| >= 11 && line[0] == ':' && |line| % 2 == 1 && AllHex(line)
    requires |line| == 2 * (LineBytes(line)[0] as int) + 11
    ensures DecodeLine(line) == Err(InvalidChecksum) <==> Sum(LineBytes(line)) % 256 != 0
  {
    var b := LineBytes(line);
    LineBytesLayout(line, b, b[0]);
    DecodeLineAccepts(line);
  }

  /** A line that is not well formed appends exactly one error, tagged with its index, and changes nothing else. */
  lemma InterpretRejects(s: Session, window: Range, index: nat, line: string)
    requires |line| > 0 && !WellFormedLine(line)
    ensures DecodeLine(line).Err?
    ensures Interpret(s, window, index, line) == s.(errors := s.errors + [FileError(index, DecodeLine(line).error)])
  {
    DecodeLineAccepts(line);
  }

  /** The bytes of a well-formed line read as the record the decoder returns. */
  lemma WellFormedRecord(line: string)
    requires WellFormedLine(line)
    ensures DecodeLine(line) == Ok(RecordOfBytes(LineBytes(line)))
    ensures RecordOfBytes(LineBytes(line)).byteCount == |RecordOfBytes(LineBytes(line)).data|
  {
    WellFormedDecodes(line);
  }

  /**
   * A well-formed Data line: its start is high + address and its end
   * start + N - 1, both modulo 2^32; the file range always widens to cover
   * them; then the line is below the window (a TooLow warning), else above
   * it (a TooHigh warning), else stored as one new fragment.
   */
  lemma DataRecordLaw(s: Session, window: Range, index: nat, line: string)
    requires WellFormedLine(line) && LineBytes(line)[3] == DATA
    ensures
      var b := LineBytes(line);
      var start := (s.high + (b[1] as int) * 256 + b[2]) % TWO_32;
      var end := (s.high + (b[1] as int) * 256 + b[2] + b[0] - 1) % TWO_32;
      var data := b[4..|b| - 1];
      var t := Interpret(s, window, index, line);
      t.high == s.high && t.errors == s.errors
      && t.fileAddress.minimum == (if s.fileAddress.minimum <= start then s.fileAddress.minimum else start)
      && t.fileAddress.maximum == (if end <= s.fileAddress.maximum then s.fileAddress.maximum else end)
      && (start < window.minimum ==>
            t.binary == s.binary && t.warnings == s.warnings + [FileError(index, AddressRangeTooLow)])
      && (window.minimum <= start && window.maximum < end ==>
            t.binary == s.binary && t.warnings == s.warnings + [FileError(index, AddressRangeTooHigh)])
      && (window.minimum <= start && end <= window.maximum ==>
            t.binary == s.binary + [Chunk(start, data)] && t.warnings == s.warnings)
  {
    var b := LineBytes(line);
    var start := (s.high + (b[1] as int) * 256 + b[2]) % TWO_32;
    var end := (s.high + (b[1] as int) * 256 + b[2] + b[0] - 1) % TWO_32;
    DataRecordStep(s, window, index, line);
    ApplyDataLaw(s, window, index, start, end, b[4..|b| - 1]);
  }

  lemma DataRecordStep(s: Session, window: Range, index: nat, line: string)
    requires WellFormedLine(line) && LineBytes(line)[3] == DATA
    ensures
      var b := LineBytes(line);
      var start := (s.high + (b[1] as int) * 256 + b[2]) % TWO_32;
      var end := (s.high + (b[1] as int) * 256 + b[2] + b[0] - 1) % TWO_32;
      Interpret(s, window, index, line) == ApplyData(s, window, index, start, end, b[4..|b| - 1])
  {
    var b := LineBytes(line);
    WellFormedRecord(line);
    var r := RecordOfBytes(b);
    assert r.recordType == DATA && r.address == (b[1] as int) * 256 + b[2] && r.byteCount == b[0] && r.data == b[4..|b| - 1];
    DecodedDataLine(s, window, index, line, r);
  }

  /** A line that decodes to a Data record goes through the window test at high + address. */
  lemma DecodedDataLine(s: Session, window: Range, index: nat, line: string, r: Record)
    requires |line| > 0 && DecodeLine(line) == Ok(r) && r.recordType == DATA
    ensures Interpret(s, window, index, line)
      == ApplyData(s, window, index, Wrap32(s.high + r.address), Wrap32(s.high + r.address + r.byteCount - 1), r.data)
  {
    InterpretDecoded(s, window, index, line, r);
    ApplyDataRecord(s, window, index, line, r);
  }

  /** A Data record goes through the window test at high + address. */
  lemma ApplyDataRecord(s: Session, window: Range, index: nat, line: string, r: Record)
    requires r.recordType == DATA
    ensures ApplyRecord(s, window, index, line, r)
      == ApplyData(s, window, index, Wrap32(s.high + r.address), Wrap32(s.high + r.address + r.byteCount - 1), r.data)
  {
  }

  lemma ApplyDataLaw(s: Session, window: Range, index: nat, start: u32, end: u32, data: seq<byte>)
    ensures
      var t := ApplyData(s, window, index, start, end, data);
      t.high == s.high && t.errors == s.errors
      && t.fileAddress.minimum == (if s.fileAddress.minimum <= start then s.fileAddress.minimum else start)
      && t.fileAddress.maximum == (if end <= s.fileAddress.maximum then s.fileAddress.maximum else end)
      && (start < window.minimum ==>
            t.binary == s.binary && t.warnings == s.warnings + [FileError(index, AddressRangeTooLow)])
      && (window.minimum <= start && window.maximum < end ==>
            t.binary == s.binary && t.warnings == s.warnings + [FileError(index, AddressRangeTooHigh)])
      && (window.minimum <= start && end <= window.maximum ==>
            t.binary == s.binary + [Chunk(start, data)] && t.warnings == s.warnings)
  {
  }

  /** Start-address and end-of-file records are accepted and change nothing. */
  lemma InertRecords(s: Session, window: Range, index: nat, line: string)
    requires WellFormedLine(line)
    requires LineBytes(line)[3] in {END_OF_FILE, START_SEGMENT_ADDRESS, START_LINEAR_ADDRESS}
    ensures Interpret(s, window, index, line) == s
  {
    WellFormedRecord(line);
  }

  /** A record type above 5 passes every check and is then rejected as unsupported. */
  lemma UnsupportedRecordType(s: Session, window: Range, index: nat, line: string)
    requires WellFormedLine(line) && LineBytes(line)[3] > START_LINEAR_ADDRESS
    ensures Interpret(s, window, index, line) == s.(errors := s.errors + [FileError(index, InvalidRecordType)])
  {
    WellFormedRecord(line);
  }

  /** Four hex digits read as a number: the most significant digit first. */
  lemma HexNumberOfFour(s: string)
    requires |s| == 4 && forall i :: 0 <= i < 4 ==> IsHexDigit(s[i])
    ensures HexNumber(s) == Some(4096 * DigitValue(s[0]) + 256 * DigitValue(s[1]) + 16 * DigitValue(s[2]) + DigitValue(s[3]))
  {
    assert s[..3][..2] == s[..2];
    assert s[..2][..1] == s[..1];
    assert HexNumber(s[..1]) == Some(DigitValue(s[0]));
    assert HexNumber(s[..2]) == Some(16 * DigitValue(s[0]) + DigitValue(s[1]));
    assert HexNumber(s[..3]) == Some(256 * DigitValue(s[0]) + 16 * DigitValue(s[1]) + DigitValue(s[2]));
  }

  /** Two hex digits read as a number. */
  lemma HexNumberOfTwo(s: string)
    requires |s| == 2 && IsHexDigit(s[0]) && IsHexDigit(s[1])
    ensures HexNumber(s) == Some(16 * DigitValue(s[0]) + DigitValue(s[1]))
  {
    assert s[..1] == [s[0]];
  }

  /**
   * The address field of a well-formed line: the two bytes after the header,
   * big-endian. With one data byte the second of them is the checksum; with
   * none the field is the checksum byte alone.
   */
  lemma AddressFieldValue(line: string)
    requires WellFormedLine(line)
    ensures
      var b := LineBytes(line);
      AddressField(line) == Some(if b[0] == 0 then b[4] as int else (b[4] as int) * 256 + b[5])
  {
    var b := LineBytes(line);
    assert PairValue(line, 4) == 16 * DigitValue(line[9]) + DigitValue(line[10]);
    if b[0] == 0 {
      var f := line[9..11];
      assert f[0] == line[9] && f[1] == line[10];
      HexNumberOfTwo(f);
    } else {
      var f := line[9..13];
      assert forall i :: 0 <= i < 4 ==> f[i] == line[9 + i];
      HexNumberOfFour(f);
      assert PairValue(line, 5) == 16 * DigitValue(line[11]) + DigitValue(line[12]);
    }
  }

  /**
   * A well-formed 04 record sets the upper address bits to its address field
   * shifted left by 16, a 02 record to the field shifted left by 4; nothing
   * else changes, and the InvalidAddressByte branch is never taken.
   */
  lemma AddressRecordLaw(s: Session, window: Range, index: nat, line: string)
    requires WellFormedLine(line)
    requires LineBytes(line)[3] == EXTENDED_LINEAR_ADDRESS || LineBytes(line)[3] == EXTENDED_SEGMENT_ADDRESS
    ensures
      var b := LineBytes(line);
      var v: int := if b[0] == 0 then b[4] as int else (b[4] as int) * 256 + b[5];
      Interpret(s, window, index, line)
        == s.(high := if b[3] == EXTENDED_LINEAR_ADDRESS then v * 0x1_0000 else v * 0x10)
  {
    WellFormedRecord(line);
    AddressFieldValue(line);
  }

  // ---------------------------------------------------------------- many lines

  /** Applying lines only appends: to the fragments, the errors and the warnings. */
  lemma {:induction false} InterpretLinesAppends(s: Session, window: Range, lines: seq<string>)
    requires NonEmptyLines(lines)
    ensures
      var t := InterpretLines(s, window, lines);
      s.binary <= t.binary && s.errors <= t.errors && s.warnings <= t.warnings
    decreases |lines|
  {
    if lines != [] {
      var p := lines[..|lines| - 1];
      InterpretLinesAppends(s, window, p);
      OneLineAppends(InterpretLines(s, window, p), window, |lines|, lines[|lines| - 1]);
    }
  }

  /** One line only appends, to the fragments, the errors and the warnings. */
  lemma OneLineAppends(s: Session, window: Range, index: nat, line: string)
    requires |line| > 0
    ensures
      var t := Interpret(s, window, index, line);
      s.binary <= t.binary && s.errors <= t.errors && s.warnings <= t.warnings
  {
  }

  /**
   * The errors after e0 in e number at most n, carry line indices within
   * 1..n, and those indices strictly increase.
   */
  predicate NewErrorsOrdered(e0: seq<FileError>, e: seq<FileError>, n: nat)
  {
    e0 <= e && |e| - |e0| <= n
    && (forall j :: |e0| <= j < |e| ==> 1 <= e[j].lineIndex <= n)
    && (forall j :: |e0| <= j < |e| - 1 ==> e[j].lineIndex < e[j + 1].lineIndex)
  }

  /** Each line adds at most one error, tagged with its own 1-based index, so new errors carry increasing indices within 1..|lines|. */
  lemma {:induction false} ErrorIndices(s: Session, window: Range, lines: seq<string>)
    requires NonEmptyLines(lines)
    ensures NewErrorsOrdered(s.errors, InterpretLines(s, window, lines).errors, |lines|)
    decreases |lines|
  {
    if lines != [] {
      var p := lines[..|lines| - 1];
      ErrorIndices(s, window, p);
      var u := InterpretLines(s, window, p);
      OneLineErrors(u, window, |lines|, lines[|lines| - 1]);
      OrderedStep(s.errors, u.errors, InterpretLines(s, window, lines).errors, |lines|);
    }
  }

  lemma OrderedStep(e0: seq<FileError>, u: seq<FileError>, t: seq<FileError>, n: nat)
    requires n > 0 && NewErrorsOrdered(e0, u, n - 1)
    requires t == u || (|t| == |u| + 1 && t[..|u|] == u && t[|u|].lineIndex == n)
    ensures NewErrorsOrdered(e0, t, n)
  {
    if t != u {
      assert forall j :: 0 <= j < |u| ==> t[j] == u[j];
    }
  }

  /** One line keeps the old errors or adds exactly one, tagged with the line's index. */
  lemma OneLineErrors(s: Session, window: Range, index: nat, line: string)
    requires |line| > 0
    ensures
      var t := Interpret(s, window, index, line).errors;
      t == s.errors || (|t| == |s.errors| + 1 && t[..|s.errors|] == s.errors && t[|s.errors|].lineIndex == index)
  {
  }

  /** A line adds no error exactly when it is well formed with a record type of at most 5. */
  lemma OneLineAccepted(s: Session, window: Range, index: nat, line: string)
    requires |line| > 0
    ensures Interpret(s, window, index, line).errors == s.errors <==> Accepted(line)
  {
    DecodeLineAccepts(line);
    if WellFormedLine(line) {
      WellFormedRecord(line);
      AddressFieldValue(line);
    }
  }

  /** A line load takes without complaint. */
  predicate Accepted(line: string)
  {
    WellFormedLine(line) && LineBytes(line)[3] <= START_LINEAR_ADDRESS
  }

  /** Loading adds no error exactly when every line is well formed with a record type of at most 5. */
  lemma {:induction false} NoErrorsIffAccepted(s: Session, window: Range, lines: seq<string>)
    requires NonEmptyLines(lines)
    ensures InterpretLines(s, window, lines).errors == s.errors <==> AllAccepted(lines)
    decreases |lines|
  {
    if lines != [] {
      var p := lines[..|lines| - 1];
      var last := lines[|lines| - 1];
      NoErrorsIffAccepted(s, window, p);
      InterpretLinesAppends(s, window, p);
      var u := InterpretLines(s, window, p);
      OneLineAccepted(u, window, |lines|, last);
      OneLineErrors(u, window, |lines|, last);
      AllAcceptedSplit(lines);
    }
  }

  predicate AllAccepted(lines: seq<string>)
  {
    forall i :: 0 <= i < |lines| ==> Accepted(lines[i])
  }

  lemma AllAcceptedSplit(lines: seq<string>)
    requires |lines| > 0
    ensures AllAccepted(lines) <==> AllAccepted(lines[..|lines| - 1]) && Accepted(lines[|lines| - 1])
  {
    var p := lines[..|lines| - 1];
    assert forall i :: 0 <= i < |p| ==> p[i] == lines[i];
  }
}
