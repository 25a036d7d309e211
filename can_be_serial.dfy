/**
 * The CAN frame byte codec of CANbeSerial: the DLC table lookups, the
 * frame encoder and decoder, and the configuration payload. The object's
 * configuration fields are the class below.
 */
module CanBeSerial {
  import opened HexTypes

  /**
   * Data length per DLC code: the CAN FD coding of ISO 11898-1:2015
   * (codes 0 to 8 are the length itself, then 12, 16, 20, 24, 32, 48, 64).
   */
  const DLC_LENGTHS: seq<byte> := [0, 1, 2, 3, 4, 5, 6, 7, 8, 12, 16, 20, 24, 32, 48, 64]

  /** A CAN frame as the codec sees it. */
  datatype CanBusFrame = CanBusFrame(
    timestamp: u32, identifier: u32,
    extended: bool, rtr: bool, fd: bool, bitRateSwitch: bool,
    data: seq<byte>, isValide: bool)

  /** A default-constructed frame: every field zero, false or empty, so not valid. */
  const DEFAULT_FRAME := CanBusFrame(0, 0, false, false, false, false, [], false)

  /** _dlcToLength: the table entry, or -1 for a code past the table. */
  function DlcToLength(dlc: byte): (r: int)
    ensures r == -1 || (dlc < |DLC_LENGTHS| && r == DLC_LENGTHS[dlc])
    ensures r < 0 <==> dlc >= |DLC_LENGTHS|
  {
    if dlc >= |DLC_LENGTHS| then -1 else DLC_LENGTHS[dlc]
  }

  /** The smallest code whose length holds length bytes, or -1 when none does. */
  function SmallestDlc(length: nat): (d: int)
    ensures -1 <= d < |DLC_LENGTHS|
  {
    if length <= 8 then length
    else if length <= 12 then 9
    else if length <= 16 then 10
    else if length <= 20 then 11
    else if length <= 24 then 12
    else if length <= 32 then 13
    else if length <= 48 then 14
    else if length <= 64 then 15
    else -1
  }

  /** The lengths grow with the code, and the first nine codes are their own length. */
  lemma DlcTableShape()
    ensures forall i, j :: 0 <= i < j < |DLC_LENGTHS| ==> DLC_LENGTHS[i] < DLC_LENGTHS[j]
    ensures forall i :: 0 <= i <= 8 ==> DLC_LENGTHS[i] == i
  {
  }

  /**
   * The smallest fitting code exists exactly up to 64 bytes; it is the
   * length itself up to 8; its length holds the bytes and no smaller code's
   * length does.
   */
  lemma SmallestDlcMeaning(length: nat)
    ensures SmallestDlc(length) == -1 <==> length > 64
    ensures length <= 8 ==> SmallestDlc(length) == length
    ensures var d := SmallestDlc(length);
      d >= 0 ==> DLC_LENGTHS[d] >= length && forall j :: 0 <= j < d ==> DLC_LENGTHS[j] < length
    ensures SmallestDlc(length) == -1 ==> forall j :: 0 <= j < |DLC_LENGTHS| ==> DLC_LENGTHS[j] < length
  {
    DlcTableShape();
    var d := SmallestDlc(length);
    if d > 0 {
      assert DLC_LENGTHS[d - 1] < length;
    }
  }

  function TestBit(x: int, mask: nat): bool
    requires mask > 0
  {
    (x / mask) % 2 == 1
  }

  /** The flag byte: bit 0 extended, bit 1 rtr, bit 2 fd, bits 4 to 7 the code. */
  function FlagsByte(f: CanBusFrame, dlc: nat): (b: byte)
    requires dlc < 16
  {
    (if f.extended then 1 else 0) + (if f.rtr then 2 else 0) + (if f.fd then 4 else 0) + dlc * 16
  }

  /** The four big-endian bytes of a 32-bit value. */
  function BigEndian32(x: u32): (r: seq<byte>)
    ensures |r| == 4
  {
    [x / 0x100_0000, x / 0x1_0000 % 256, x / 256 % 256, x % 256]
  }

  /** A 32-bit value read from four big-endian bytes. */
  function ReadBigEndian32(b0: byte, b1: byte, b2: byte, b3: byte): u32
  {
    (b0 as int) * 0x100_0000 + (b1 as int) * 0x1_0000 + (b2 as int) * 256 + b3
  }

  lemma BigEndianRoundTrip(x: u32)
    ensures var r := BigEndian32(x); ReadBigEndian32(r[0], r[1], r[2], r[3]) == x
  {
    var q1, b3 := x / 256, x % 256;
    var q2, b2 := q1 / 256, q1 % 256;
    var q3, b1 := q2 / 256, q2 % 256;
    assert x == 256 * q1 + b3 && q1 == 256 * q2 + b2 && q2 == 256 * q3 + b1;
    assert x == 0x1_0000 * q2 + (256 * b2 + b3);
    ModOfMultiplePlus(0x1_0000, q2, 256 * b2 + b3);
    assert x == 0x100_0000 * q3 + (0x1_0000 * b1 + 256 * b2 + b3);
    ModOfMultiplePlus(0x100_0000, q3, 0x1_0000 * b1 + 256 * b2 + b3);
  }

  /**
   * How many padding bytes the encoder appends: the table length minus the
   * data size, kept in a uint8_t, so taken modulo 256.
   */
  function PaddingLength(dlc: nat, size: nat): byte
    requires dlc < |DLC_LENGTHS|
  {
    if DLC_LENGTHS[dlc] != size then (DLC_LENGTHS[dlc] - size) % 256 else 0
  }

  /**
   * _encodeFrame with the padding configuration: the data size is handed to
   * _lengthToDlc as a uint8_t (modulo 256); no code gives the empty
   * result, and so does a size that is not a table length while padding is
   * off. Otherwise: four zero timestamp bytes, the identifier big-endian,
   * the flag byte and a zero byte, the data, then the padding.
   */
  function FrameBytes(f: CanBusFrame, padding: bool, padValue: byte): (r: seq<byte>)
  {
    var dlc := SmallestDlc(|f.data| % 256);
    if dlc < 0 then []
    else if DLC_LENGTHS[dlc] != |f.data| && !padding then []
    else
      [0, 0, 0, 0] + BigEndian32(f.identifier) + [FlagsByte(f, dlc), 0] + f.data
      + Fill(PaddingLength(dlc, |f.data|), padValue)
  }

  /** _decodeFrame: the default frame when the bytes are too short for their code. */
  function DecodeFrame(data: seq<byte>): (f: CanBusFrame)
  {
    if |data| < 10 then DEFAULT_FRAME
    else
      var flags := (data[8] as int) + (data[9] as int) * 256;
      var length := DlcToLength(flags / 16 % 16);
      if length < 0 || |data| < length + 10 then DEFAULT_FRAME
      else CanBusFrame(
        ReadBigEndian32(data[0], data[1], data[2], data[3]),
        ReadBigEndian32(data[4], data[5], data[6], data[7]),
        TestBit(flags, 1), TestBit(flags, 2), TestBit(flags, 4), TestBit(flags, 8),
        data[10..], true)
  }

  /** The bus byte of the configuration: bit 1 enabled, bit 2 automatic retransmission, bit 3 silent. */
  function BusByte(enabled: bool, automaticRetransmission: bool, silentMode: bool): byte
  {
    (if enabled then 2 else 0) + (if automaticRetransmission then 4 else 0) + (if silentMode then 8 else 0)
  }

  // ---------------------------------------------------------------- lemmas

  /**
   * The encoder gives nothing exactly when the size taken modulo 256 is
   * above 64, or when it is not a table length and padding is off.
   */
  lemma EncodeRejects(f: CanBusFrame, padding: bool, padValue: byte)
    ensures var dlc := SmallestDlc(|f.data| % 256);
      (FrameBytes(f, padding, padValue) == [])
        <==> (|f.data| % 256 > 64 || (dlc >= 0 && DLC_LENGTHS[dlc] != |f.data| && !padding))
  {
    SmallestDlcMeaning(|f.data| % 256);
  }

  /** The layout of an encoded frame: a ten-byte header, the data, the padding. */
  lemma FrameBytesShape(f: CanBusFrame, padding: bool, padValue: byte)
    requires FrameBytes(f, padding, padValue) != []
    ensures var dlc := SmallestDlc(|f.data| % 256);
      var r := FrameBytes(f, padding, padValue);
      0 <= dlc < |DLC_LENGTHS|
      && r == [0, 0, 0, 0] + BigEndian32(f.identifier) + [FlagsByte(f, dlc), 0] + f.data
              + Fill(PaddingLength(dlc, |f.data|), padValue)
  {
  }

  /**
   * For a frame of up to 64 bytes that is encoded, the output is
   * 10 + the table length of its code; the data is padded up to that
   * length with the padding value.
   */
  lemma EncodedLength(f: CanBusFrame, padding: bool, padValue: byte)
    requires |f.data| <= 64
    requires FrameBytes(f, padding, padValue) != []
    ensures var r := FrameBytes(f, padding, padValue);
      var dlc := SmallestDlc(|f.data|);
      0 <= dlc && |r| == 10 + DLC_LENGTHS[dlc] && r[8] / 16 == dlc
      && r[10 .. 10 + |f.data|] == f.data
      && (forall i :: 10 + |f.data| <= i < |r| ==> r[i] == padValue)
  {
    assert |f.data| % 256 == |f.data|;
    FrameBytesShape(f, padding, padValue);
    SmallestDlcMeaning(|f.data|);
    var dlc := SmallestDlc(|f.data|);
    var r := FrameBytes(f, padding, padValue);
    FlagsOfFrame(f, dlc);
    PaddingFits(dlc, |f.data|);
    var head := [0, 0, 0, 0] + BigEndian32(f.identifier) + [FlagsByte(f, dlc), 0];
    var pad := Fill(PaddingLength(dlc, |f.data|), padValue);
    assert r == head + f.data + pad;
    assert r[8] == FlagsByte(f, dlc);
    assert r[10 .. 10 + |f.data|] == f.data;
    forall i | 10 + |f.data| <= i < |r| ensures r[i] == padValue {
      assert r[i] == pad[i - 10 - |f.data|];
    }
  }

  /** Up to 64 bytes, the data and the padding make up exactly the table length. */
  lemma PaddingFits(dlc: nat, size: nat)
    requires dlc < |DLC_LENGTHS| && size <= DLC_LENGTHS[dlc]
    ensures size + PaddingLength(dlc, size) == DLC_LENGTHS[dlc]
  {
  }

  lemma FlagsOfFrame(f: CanBusFrame, dlc: nat)
    requires dlc < 16
    ensures var b := FlagsByte(f, dlc);
      b / 16 % 16 == dlc && b / 16 == dlc
      && TestBit(b, 1) == f.extended && TestBit(b, 2) == f.rtr && TestBit(b, 4) == f.fd && !TestBit(b, 8)
  {
    var low := (if f.extended then 1 else 0) + (if f.rtr then 2 else 0) + (if f.fd then 4 else 0);
    assert FlagsByte(f, dlc) == low + 16 * dlc;
    ModOfMultiplePlus(16, dlc, low);
    ModOfMultiplePlus(16, 0, dlc);
    LowBitsUnder(low, dlc, 16);
  }

  /**
   * Decoding what the encoder produced gives a valid frame with timestamp
   * 0, the same identifier, extended, rtr and fd flags, bitRateSwitch
   * false, and the data followed by the padding.
   */
  lemma DecodeEncodeFrame(f: CanBusFrame, padding: bool, padValue: byte)
    requires FrameBytes(f, padding, padValue) != []
    ensures var dlc := SmallestDlc(|f.data| % 256);
      0 <= dlc
      && DecodeFrame(FrameBytes(f, padding, padValue))
        == CanBusFrame(0, f.identifier, f.extended, f.rtr, f.fd, false,
                       f.data + Fill(PaddingLength(dlc, |f.data|), padValue), true)
  {
    FrameBytesShape(f, padding, padValue);
    var dlc := SmallestDlc(|f.data| % 256);
    var pad := Fill(PaddingLength(dlc, |f.data|), padValue);
    FlagsOfFrame(f, dlc);
    PaddedAtLeast(dlc, |f.data|);
    DecodeOfLayout(f.identifier, FlagsByte(f, dlc), f.data, pad);
  }

  /** Bytes laid out as the encoder lays them out decode to their parts. */
  lemma DecodeOfLayout(id: u32, flags: byte, data: seq<byte>, pad: seq<byte>)
    requires flags / 16 < |DLC_LENGTHS| && |data| + |pad| >= DLC_LENGTHS[flags / 16]
    ensures DecodeFrame([0, 0, 0, 0] + BigEndian32(id) + [flags, 0] + data + pad)
      == CanBusFrame(0, id, TestBit(flags, 1), TestBit(flags, 2), TestBit(flags, 4), TestBit(flags, 8), data + pad, true)
  {
    var b := BigEndian32(id);
    var r := [0, 0, 0, 0] + b + [flags, 0] + data + pad;
    assert r == [0, 0, 0, 0] + b + [flags, 0] + (data + pad);
    assert r[8] == flags && r[9] == 0;
    assert r[4] == b[0] && r[5] == b[1] && r[6] == b[2] && r[7] == b[3];
    assert r[0] == 0 && r[1] == 0 && r[2] == 0 && r[3] == 0;
    assert r[10..] == data + pad;
    BigEndianRoundTrip(id);
    DecodeValid(r, flags);
  }

  /** Bytes with a flag byte whose code is in the table and enough data decode field by field. */
  lemma DecodeValid(r: seq<byte>, flags: byte)
    requires |r| >= 10 && r[8] == flags && r[9] == 0 && flags / 16 < |DLC_LENGTHS|
    requires |r| >= 10 + DLC_LENGTHS[flags / 16]
    ensures DecodeFrame(r) == CanBusFrame(
      ReadBigEndian32(r[0], r[1], r[2], r[3]), ReadBigEndian32(r[4], r[5], r[6], r[7]),
      TestBit(flags, 1), TestBit(flags, 2), TestBit(flags, 4), TestBit(flags, 8), r[10..], true)
  {
    FlagsCode(r[8], r[9]);
  }

  /** The data and the padding together are never shorter than the table length. */
  lemma PaddedAtLeast(dlc: nat, size: nat)
    requires dlc < |DLC_LENGTHS|
    ensures size + PaddingLength(dlc, size) >= DLC_LENGTHS[dlc]
  {
    var n := DLC_LENGTHS[dlc] as int;
    if n != size && size < n {
      assert (n - size) % 256 == n - size;
    }
  }

  /** The decoder returns the default frame for fewer than 10 bytes and for bytes too short for their code. */
  lemma DecodeRejects(data: seq<byte>)
    ensures |data| < 10 ==> DecodeFrame(data) == DEFAULT_FRAME
    ensures |data| >= 10 ==>
      (DecodeFrame(data) == DEFAULT_FRAME <==> |data| < DLC_LENGTHS[data[8] / 16] + 10)
  {
    if |data| >= 10 {
      FlagsCode(data[8], data[9]);
    }
  }

  /** The code field of the flag word is the high nibble of its low byte. */
  lemma FlagsCode(lo: byte, hi: byte)
    ensures ((lo as int) + (hi as int) * 256) / 16 % 16 == lo / 16
  {
    ModOfMultiplePlus(16, lo / 16 + 16 * hi, lo % 16);
    ModOfMultiplePlus(16, hi, lo / 16);
  }

  /**
   * Decoded data is everything from byte 10 on, not cut to the code's
   * length; the flag bits come from byte 8 alone.
   */
  lemma DecodedFields(data: seq<byte>)
    requires DecodeFrame(data).isValide
    ensures var f := DecodeFrame(data);
      |data| >= 10 && f.data == data[10..] && |f.data| >= DLC_LENGTHS[data[8] / 16]
      && f.timestamp == ReadBigEndian32(data[0], data[1], data[2], data[3])
      && f.identifier == ReadBigEndian32(data[4], data[5], data[6], data[7])
      && f.extended == TestBit(data[8], 1) && f.rtr == TestBit(data[8], 2)
      && f.fd == TestBit(data[8], 4) && f.bitRateSwitch == TestBit(data[8], 8)
  {
    FlagsCode(data[8], data[9]);
    LowBitsOfFlags(data[8], data[9]);
  }

  lemma LowBitsOfFlags(lo: byte, hi: byte)
    ensures var flags := (lo as int) + (hi as int) * 256;
      TestBit(flags, 1) == TestBit(lo, 1) && TestBit(flags, 2) == TestBit(lo, 2)
      && TestBit(flags, 4) == TestBit(lo, 4) && TestBit(flags, 8) == TestBit(lo, 8)
  {
    LowBitsUnder(lo, hi, 256);
  }

  /** Adding a multiple of 16 or 256 leaves bits 0 to 3 as they are. */
  lemma LowBitsUnder(low: int, q: int, unit: int)
    requires unit == 16 || unit == 256
    ensures var x := low + unit * q;
      TestBit(x, 1) == TestBit(low, 1) && TestBit(x, 2) == TestBit(low, 2)
      && TestBit(x, 4) == TestBit(low, 4) && TestBit(x, 8) == TestBit(low, 8)
  {
    var k := unit / 16 * q;
    var x := low + unit * q;
    assert x == 16 * k + low;
    ModShift(1, 16 * k, low);
    ModShift(2, 8 * k, low);
    ModShift(2, 4 * k, low / 2);
    ModShift(4, 4 * k, low);
    ModShift(2, 2 * k, low / 4);
    ModShift(8, 2 * k, low);
    ModShift(2, k, low / 8);
  }

  /**
   * The configuration payload reads back: byte 2 carries enabled,
   * automatic retransmission and silent mode in bits 1, 2 and 3, bit 0 is
   * clear and the high byte of the bus word is zero.
   */
  lemma BusByteBits(enabled: bool, automaticRetransmission: bool, silentMode: bool)
    ensures var b := BusByte(enabled, automaticRetransmission, silentMode);
      TestBit(b, 2) == enabled && TestBit(b, 4) == automaticRetransmission && TestBit(b, 8) == silentMode
      && !TestBit(b, 1) && b < 16
  {
  }

  /**
   * The size reaches _lengthToDlc modulo 256: a 257-byte frame with padding
   * on is encoded with code 1 and all 257 bytes, while its flag byte
   * promises one.
   */
  lemma OversizedFrameEncodes(f: CanBusFrame, padValue: byte)
    requires |f.data| == 257
    ensures var r := FrameBytes(f, true, padValue);
      |r| == 267 && r[8] / 16 == 1 && DLC_LENGTHS[r[8] / 16] == 1
  {
    assert |f.data| % 256 == 1;
    assert SmallestDlc(1) == 1;
    assert PaddingLength(1, 257) == 0;
    FlagsOfFrame(f, 1);
    FrameBytesShape(f, true, padValue);
  }

  /** The encoder as evidently intended: sizes above 64 bytes are rejected before the code is looked up. */
  function CheckedFrameBytes(f: CanBusFrame, padding: bool, padValue: byte): seq<byte>
  {
    if |f.data| > 64 then [] else FrameBytes(f, padding, padValue)
  }

  /** With the size check, every encoded frame is exactly 10 + the length its code announces. */
  lemma CheckedFrameAnnouncesLength(f: CanBusFrame, padding: bool, padValue: byte)
    ensures var r := CheckedFrameBytes(f, padding, padValue);
      r != [] ==> |r| >= 10 && r[8] / 16 < |DLC_LENGTHS| && |r| == 10 + DLC_LENGTHS[r[8] / 16]
  {
    if |f.data| <= 64 && FrameBytes(f, padding, padValue) != [] {
      EncodedLength(f, padding, padValue);
      SmallestDlcMeaning(|f.data|);
    }
  }

  /** The serial adapter's configuration, as the setters leave it. */
  class CanSerial {
    var enabled: bool
    var baudrate: byte
    var fdBaudrate: byte
    var automaticRetransmission: bool
    var silentMode: bool
    var txPaddingEnabled: bool
    var txPaddingValue: byte

    /** The initial configuration comes from the class declaration, which is not part of this model. */
    constructor (enabled: bool, baudrate: byte, fdBaudrate: byte, automaticRetransmission: bool, silentMode: bool,
                 txPaddingEnabled: bool, txPaddingValue: byte)
      ensures this.enabled == enabled && this.baudrate == baudrate && this.fdBaudrate == fdBaudrate
      ensures this.automaticRetransmission == automaticRetransmission && this.silentMode == silentMode
      ensures this.txPaddingEnabled == txPaddingEnabled && this.txPaddingValue == txPaddingValue
    {
      this.enabled := enabled;
      this.baudrate := baudrate;
      this.fdBaudrate := fdBaudrate;
      this.automaticRetransmission := automaticRetransmission;
      this.silentMode := silentMode;
      this.txPaddingEnabled := txPaddingEnabled;
      this.txPaddingValue := txPaddingValue;
    }

    /** The four bytes _sendConfiguration hands to the message builder. */
    function ConfigurationPayload(): (p: seq<byte>)
      reads this
      ensures |p| == 4 && p[0] == baudrate && p[1] == fdBaudrate && p[3] == 0
      ensures TestBit(p[2], 2) == enabled && TestBit(p[2], 4) == automaticRetransmission
      ensures TestBit(p[2], 8) == silentMode && !TestBit(p[2], 1) && p[2] < 16
    {
      BusByteBits(enabled, automaticRetransmission, silentMode);
      [baudrate, fdBaudrate, BusByte(enabled, automaticRetransmission, silentMode), 0]
    }

    /** setEnabled: stores the flag, then sends the configuration; the payload is returned. */
    method SetEnabled(enable: bool) returns (payload: seq<byte>)
      modifies this
      ensures enabled == enable
      ensures baudrate == old(baudrate) && fdBaudrate == old(fdBaudrate)
      ensures automaticRetransmission == old(automaticRetransmission) && silentMode == old(silentMode)
      ensures txPaddingEnabled == old(txPaddingEnabled) && txPaddingValue == old(txPaddingValue)
      ensures payload == ConfigurationPayload()
    {
      enabled := enable;
      payload := ConfigurationPayload();
    }

    method SetBaudrate(rate: byte)
      modifies this
      ensures baudrate == rate
      ensures enabled == old(enabled) && fdBaudrate == old(fdBaudrate)
      ensures automaticRetransmission == old(automaticRetransmission) && silentMode == old(silentMode)
      ensures txPaddingEnabled == old(txPaddingEnabled) && txPaddingValue == old(txPaddingValue)
    {
      baudrate := rate;
    }

    method SetDataBaudrate(rate: byte)
      modifies this
      ensures fdBaudrate == rate
      ensures enabled == old(enabled) && baudrate == old(baudrate)
      ensures automaticRetransmission == old(automaticRetransmission) && silentMode == old(silentMode)
      ensures txPaddingEnabled == old(txPaddingEnabled) && txPaddingValue == old(txPaddingValue)
    {
      fdBaudrate := rate;
    }

    method SetTxPaddingEnable(enable: bool, value: byte)
      modifies this
      ensures txPaddingEnabled == enable && txPaddingValue == value
      ensures enabled == old(enabled) && baudrate == old(baudrate) && fdBaudrate == old(fdBaudrate)
      ensures automaticRetransmission == old(automaticRetransmission) && silentMode == old(silentMode)
    {
      txPaddingEnabled := enable;
      txPaddingValue := value;
    }

    /** _lengthToDlc: the direct answer up to 8, then a search of the table from code 8. */
    static method LengthToDlc(length: byte) returns (dlc: int)
      ensures dlc == SmallestDlc(length)
      ensures dlc == -1 <==> length > 64
    {
      SmallestDlcMeaning(length);
      if length > 64 {
        return -1;
      }
      if length <= 8 {
        return length;
      }
      var i := 8;
      while i < |DLC_LENGTHS|
        invariant 8 <= i <= |DLC_LENGTHS|
        invariant forall j :: 0 <= j < i ==> DLC_LENGTHS[j] < length
      {
        if DLC_LENGTHS[i] >= length {
          return i;
        }
        i := i + 1;
      }
      return -1;
    }

    /** _encodeFrame: the bytes of the frame under the current padding settings. */
    method EncodeFrame(f: CanBusFrame) returns (r: seq<byte>)
      ensures r == FrameBytes(f, txPaddingEnabled, txPaddingValue)
    {
      var dlc := LengthToDlc(|f.data| % 256);
      if dlc < 0 {
        return [];
      }
      var paddingLength: byte := 0;
      if DlcToLength(dlc) != |f.data| {
        if txPaddingEnabled {
          paddingLength := (DlcToLength(dlc) - |f.data|) % 256;
        } else {
          return [];
        }
      }
      r := [0, 0, 0, 0] + BigEndian32(f.identifier) + [FlagsByte(f, dlc), 0] + f.data;
      ghost var body := r;
      var n := paddingLength;
      while n > 0
        invariant 0 <= n <= paddingLength
        invariant r == body + Fill(paddingLength - n, txPaddingValue)
      {
        r := r + [txPaddingValue];
        n := n - 1;
      }
    }
  }
}
