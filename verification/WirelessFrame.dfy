/** Wireless M-Bus frames: full and compact parsing, building (src/wmbus/frame.rs). */
module WirelessFrame {
  import opened Wrappers
  import opened Casts
  import opened Bytes
  import opened WmbusCrc
  import opened ErrorDetection

  datatype WMBusFrame = WMBusFrame(
    length: Byte,
    controlField: Byte,
    manufacturerId: bv16,
    deviceAddress: U32,
    version: Byte,
    deviceType: Byte,
    controlInfo: Byte,
    payload: seq<Byte>,
    crc: bv16,
    encrypted: bool)

  datatype ParseError = InvalidLength | InvalidCrc | BufferTooShort

  // ---------------------------------------------------------------- little-endian words

  function Le16(w: bv16): (bytes: seq<Byte>)
    ensures |bytes| == 2
  {
    [Low(w), High(w)]
  }

  function FromLe32(b0: Byte, b1: Byte, b2: Byte, b3: Byte): U32 {
    Number(b0) + 0x100 * Number(b1) + 0x1_0000 * Number(b2) + 0x100_0000 * Number(b3)
  }

  function Octet0(w: U32): Byte { Truncate(w % 0x100) }

  function Octet1(w: U32): Byte { Truncate(w / 0x100 % 0x100) }

  function Octet2(w: U32): Byte { Truncate(w / 0x1_0000 % 0x100) }

  function Octet3(w: U32): Byte { Truncate(w / 0x100_0000) }

  function Le32(w: U32): (bytes: seq<Byte>)
    ensures |bytes| == 4
  {
    [Octet0(w), Octet1(w), Octet2(w), Octet3(w)]
  }

  lemma {:induction false} Le16RoundTrip(low: Byte, high: Byte)
    ensures Le16(Join(high, low)) == [low, high]
  {
    assert Low(Join(high, low)) == low && High(Join(high, low)) == high;
  }

  lemma {:induction false} OctetsOf(b0: Byte, b1: Byte, b2: Byte, b3: Byte)
    ensures Octet0(FromLe32(b0, b1, b2, b3)) == b0
    ensures Octet1(FromLe32(b0, b1, b2, b3)) == b1
    ensures Octet2(FromLe32(b0, b1, b2, b3)) == b2
    ensures Octet3(FromLe32(b0, b1, b2, b3)) == b3
  {
    hide Number, Truncate;
    NumberParts(Number(b0), Number(b1), Number(b2), Number(b3));
    TruncateNumber(b0);
    TruncateNumber(b1);
    TruncateNumber(b2);
    TruncateNumber(b3);
  }

  lemma {:induction false} NumberParts(n0: nat, n1: nat, n2: nat, n3: nat)
    requires n0 < 0x100 && n1 < 0x100 && n2 < 0x100 && n3 < 0x100
    ensures var w := n0 + 0x100 * n1 + 0x1_0000 * n2 + 0x100_0000 * n3;
            && w % 0x100 == n0 && w / 0x100 % 0x100 == n1
            && w / 0x1_0000 % 0x100 == n2 && w / 0x100_0000 == n3
  {
    var u := n2 + 0x100 * n3;
    var v := n1 + 0x100 * u;
    var w := n0 + 0x100 * v;
    LastOctet(n0, v);
    LastOctet(n1, u);
    LastOctet(n2, n3);
    DividedTwice(w);
    assert w / 0x100 / 0x100 == u;
  }

  lemma {:induction false} LastOctet(r: nat, q: nat)
    requires r < 0x100
    ensures (r + 0x100 * q) / 0x100 == q && (r + 0x100 * q) % 0x100 == r
  {
  }

  lemma {:induction false} DividedTwice(w: nat)
    ensures w / 0x1_0000 == w / 0x100 / 0x100
    ensures w / 0x100_0000 == w / 0x1_0000 / 0x100
  {
  }

  lemma {:induction false} FromOctets(w: U32)
    ensures FromLe32(Octet0(w), Octet1(w), Octet2(w), Octet3(w)) == w
  {
    hide Number, Truncate;
    TruncateSmall(w % 0x100);
    TruncateSmall(w / 0x100 % 0x100);
    TruncateSmall(w / 0x1_0000 % 0x100);
    TruncateSmall(w / 0x100_0000);
    PartsNumber(w);
  }

  lemma {:induction false} PartsNumber(w: nat)
    ensures w % 0x100 + 0x100 * (w / 0x100 % 0x100) + 0x1_0000 * (w / 0x1_0000 % 0x100)
            + 0x100_0000 * (w / 0x100_0000) == w
  {
    DividedTwice(w);
  }

  // ---------------------------------------------------------------- checking and building

  predicate VerifyWmbusCrc(frame: seq<Byte>) {
    && |frame| >= 3
    && ReadCrcBe(frame[|frame| - 2..]) == Crc(frame[..|frame| - 2])
  }

  method AddWmbusCrc(frame: seq<Byte>) returns (result: seq<Byte>)
    ensures result == frame + CrcBytes(Crc(frame))
  {
    var crc := CalculateWmbusCrc(frame);
    result := frame;
    result := result + CrcBytes(crc);
  }

  function HeaderBytes(length: Byte, control: Byte, manufacturer: bv16, address: U32,
                       version: Byte, deviceType: Byte, ci: Byte): (header: seq<Byte>)
    ensures |header| == 11
  {
    [length, control, Low(manufacturer), High(manufacturer),
     Octet0(address), Octet1(address), Octet2(address), Octet3(address),
     version, deviceType, ci]
  }

  /** Everything `build` puts before the CRC. The length byte is the cast `frame_length as u8`. */
  function Body(control: Byte, manufacturer: bv16, address: U32, version: Byte,
                deviceType: Byte, ci: Byte, payload: seq<Byte>): (body: seq<Byte>)
    ensures |body| == 11 + |payload|
  {
    HeaderBytes(Truncate(10 + |payload|), control, manufacturer, address, version, deviceType, ci) + payload
  }

  function FrameBytes(control: Byte, manufacturer: bv16, address: U32, version: Byte,
                      deviceType: Byte, ci: Byte, payload: seq<Byte>): (frame: seq<Byte>)
    ensures |frame| == 13 + |payload|
  {
    var body := Body(control, manufacturer, address, version, deviceType, ci, payload);
    body + CrcBytes(Crc(body))
  }

  method Build(control: Byte, manufacturer: bv16, address: U32, version: Byte,
               deviceType: Byte, ci: Byte, payload: seq<Byte>) returns (result: seq<Byte>)
    ensures result == FrameBytes(control, manufacturer, address, version, deviceType, ci, payload)
  {
    var frameLength := 1 + 2 + 4 + 1 + 1 + 1 + |payload|;
    var frame: seq<Byte> := [];
    frame := frame + [Truncate(frameLength)];
    frame := frame + [control];
    frame := frame + Le16(manufacturer);
    frame := frame + Le32(address);
    assert frame == [Truncate(frameLength), control, Low(manufacturer), High(manufacturer),
                     Octet0(address), Octet1(address), Octet2(address), Octet3(address)];
    frame := frame + [version];
    frame := frame + [deviceType];
    frame := frame + [ci];
    assert frame == HeaderBytes(Truncate(frameLength), control, manufacturer, address, version, deviceType, ci);
    frame := frame + payload;
    result := AddWmbusCrc(frame);
  }

  function ToBytes(f: WMBusFrame): seq<Byte> {
    FrameBytes(f.controlField, f.manufacturerId, f.deviceAddress, f.version, f.deviceType,
               f.controlInfo, f.payload)
  }

  // ---------------------------------------------------------------- parsing

  predicate IsEncryptedFrame(control: Byte, ci: Byte) {
    Has(control, 0x80) || 0x7A <= ci <= 0x8B
  }

  predicate IsApplicationCi(ci: Byte) {
    || 0x51 <= ci <= 0x52 || 0x54 <= ci <= 0x55 || 0x5A <= ci <= 0x5B || 0x5F <= ci <= 0x61
    || 0x64 <= ci <= 0x65 || 0x69 <= ci <= 0x80 || 0x8A <= ci <= 0x97 || 0xA0 <= ci <= 0xB7
  }

  predicate LooksLikeFullFrame(b: seq<Byte>) {
    |b| >= 13 && |b| == Number(b[0]) + 3 && IsApplicationCi(b[10])
  }

  /** The inputs handed to the compact parser. */
  predicate IsCompactForm(raw: seq<Byte>) {
    |raw| >= 7 && raw[2] == 0x79 && !LooksLikeFullFrame(raw)
  }

  function ParseWmbusFrame(raw: seq<Byte>): Result<WMBusFrame, ParseError> {
    if IsCompactForm(raw) then ParseCompactFrame(raw)
    else if |raw| < 13 then Err(BufferTooShort)
    else if |raw| != Number(raw[0]) + 1 + 2 then Err(InvalidLength)
    else if !VerifyWmbusCrc(raw) then Err(InvalidCrc)
    else
      Ok(WMBusFrame(
           raw[0], raw[1],
           Join(raw[3], raw[2]),
           FromLe32(raw[4], raw[5], raw[6], raw[7]),
           raw[8], raw[9], raw[10],
           raw[11..|raw| - 2],
           ReadCrcBe(raw[|raw| - 2..]),
           IsEncryptedFrame(raw[1], raw[10])))
  }

  function ParseCompactFrame(raw: seq<Byte>): Result<WMBusFrame, ParseError> {
    if |raw| < 7 then Err(BufferTooShort)
    else if raw[2] != 0x79 then Err(InvalidLength)
    else if !VerifyWmbusCrc(raw) then Err(InvalidCrc)
    else
      Ok(WMBusFrame(
           raw[0], raw[1],
           Join(raw[4], raw[3]), // the signature stands in for the manufacturer
           0, 0, 0, raw[2],
           raw[5..|raw| - 2],
           ReadCrcBe(raw[|raw| - 2..]),
           false))
  }

  // ---------------------------------------------------------------- acceptance

  /** Exactly which inputs are accepted, and why the others are not. */
  lemma {:induction false} AcceptedIff(raw: seq<Byte>)
    ensures ParseWmbusFrame(raw).Ok? <==>
            && VerifyCrcBe(raw)
            && (IsCompactForm(raw) || (|raw| >= 13 && |raw| == Number(raw[0]) + 3))
    ensures ParseWmbusFrame(raw) == Err(BufferTooShort) <==> |raw| < 13 && !IsCompactForm(raw)
    ensures ParseWmbusFrame(raw) == Err(InvalidLength) <==>
            |raw| >= 13 && |raw| != Number(raw[0]) + 3 && !IsCompactForm(raw)
  {
  }

  /** No burst of at most 16 bits turns an accepted input, full or compact, into another
      accepted input. */
  lemma {:induction false} BurstRejected(raw: seq<Byte>, raw': seq<Byte>, p: int)
    requires ParseWmbusFrame(raw).Ok?
    requires raw' != raw && DifferOnlyInBurst(raw, raw', p)
    ensures ParseWmbusFrame(raw').Err?
  {
    AcceptedIff(raw);
    AcceptedIff(raw');
    BurstDetected(raw, raw', p);
  }

  /** Nor does any odd number of flipped bits, wherever they are. */
  lemma {:induction false} OddErrorsRejected(raw: seq<Byte>, raw': seq<Byte>)
    requires ParseWmbusFrame(raw).Ok? && |raw'| == |raw|
    requires Odd(Diff(Bits(raw), Bits(raw')))
    ensures ParseWmbusFrame(raw').Err?
  {
    AcceptedIff(raw);
    AcceptedIff(raw');
    OddErrorsDetected(raw, raw');
  }

  // ---------------------------------------------------------------- inverses

  /** The frame a parser should get back from `build`. */
  function Built(control: Byte, manufacturer: bv16, address: U32, version: Byte,
                 deviceType: Byte, ci: Byte, payload: seq<Byte>): WMBusFrame
  {
    WMBusFrame(Truncate(10 + |payload|), control, manufacturer, address, version, deviceType, ci,
               payload, Crc(Body(control, manufacturer, address, version, deviceType, ci, payload)),
               IsEncryptedFrame(control, ci))
  }

  lemma {:induction false} HeaderOfHeaderBytes(b: seq<Byte>)
    requires |b| == 11
    ensures HeaderBytes(b[0], b[1], Join(b[3], b[2]), FromLe32(b[4], b[5], b[6], b[7]), b[8], b[9], b[10]) == b
  {
    Le16RoundTrip(b[2], b[3]);
    assert Le16(Join(b[3], b[2]))[0] == b[2] && Le16(Join(b[3], b[2]))[1] == b[3];
    OctetsOf(b[4], b[5], b[6], b[7]);
  }

  /** Where the parts of a built frame lie. */
  lemma {:induction false} FrameBytesParts(control: Byte, manufacturer: bv16, address: U32,
                                           version: Byte, deviceType: Byte, ci: Byte, payload: seq<Byte>)
    ensures var raw := FrameBytes(control, manufacturer, address, version, deviceType, ci, payload);
            var n := |raw| - 2;
            && raw[..11] == HeaderBytes(Truncate(10 + |payload|), control, manufacturer, address,
                                        version, deviceType, ci)
            && raw[11..n] == payload
            && raw[..n] == Body(control, manufacturer, address, version, deviceType, ci, payload)
            && raw[n..] == CrcBytes(Crc(raw[..n]))
  {
    var body := Body(control, manufacturer, address, version, deviceType, ci, payload);
    var raw := FrameBytes(control, manufacturer, address, version, deviceType, ci, payload);
    assert raw[..|body|] == body;
    assert raw[..11] == body[..11];
  }

  lemma {:induction false} FirstEleven(raw: seq<Byte>, header: seq<Byte>)
    requires |header| == 11 && |raw| >= 11 && raw[..11] == header
    ensures raw[0] == header[0] && raw[1] == header[1] && raw[2] == header[2] && raw[3] == header[3]
    ensures raw[4] == header[4] && raw[5] == header[5] && raw[6] == header[6] && raw[7] == header[7]
    ensures raw[8] == header[8] && raw[9] == header[9] && raw[10] == header[10]
  {
    forall k | 0 <= k < 11
      ensures raw[k] == header[k]
    {
      assert raw[..11][k] == header[k];
    }
  }

  lemma {:induction false} FrameBytesFields(control: Byte, manufacturer: bv16, address: U32,
                                            version: Byte, deviceType: Byte, ci: Byte, payload: seq<Byte>)
    ensures var raw := FrameBytes(control, manufacturer, address, version, deviceType, ci, payload);
            && raw[0] == Truncate(10 + |payload|) && raw[1] == control
            && raw[2] == Low(manufacturer) && raw[3] == High(manufacturer)
            && raw[4] == Octet0(address) && raw[5] == Octet1(address)
            && raw[6] == Octet2(address) && raw[7] == Octet3(address)
            && raw[8] == version && raw[9] == deviceType && raw[10] == ci
  {
    FrameBytesParts(control, manufacturer, address, version, deviceType, ci, payload);
    FirstEleven(FrameBytes(control, manufacturer, address, version, deviceType, ci, payload),
                HeaderBytes(Truncate(10 + |payload|), control, manufacturer, address, version, deviceType, ci));
  }

  /** The length byte of a built frame is right exactly for payloads of at most 245 bytes. */
  lemma {:induction false} LengthByteFits(n: nat)
    ensures Number(Truncate(10 + n)) + 3 == 13 + n <==> n <= 245
  {
    hide Truncate;
    TruncateIsModulo(10 + n);
    if n <= 245 {
      assert (10 + n) % 256 == 10 + n;
    }
  }

  lemma {:induction false} BuiltIsCompactForm(control: Byte, manufacturer: bv16, address: U32,
                                              version: Byte, deviceType: Byte, ci: Byte, payload: seq<Byte>)
    ensures var raw := FrameBytes(control, manufacturer, address, version, deviceType, ci, payload);
            && VerifyWmbusCrc(raw)
            && (|raw| == Number(raw[0]) + 3 <==> |payload| <= 245)
            && (IsCompactForm(raw) <==>
                Low(manufacturer) == 0x79 && !(|payload| <= 245 && IsApplicationCi(ci)))
  {
    var raw := FrameBytes(control, manufacturer, address, version, deviceType, ci, payload);
    FrameBytesParts(control, manufacturer, address, version, deviceType, ci, payload);
    FrameBytesFields(control, manufacturer, address, version, deviceType, ci, payload);
    LengthByteFits(|payload|);
    JoinHighLow(Crc(raw[..|raw| - 2]));
  }

  /** Parsing a built frame returns its fields exactly when the payload fits the length byte
      and the header does not look like a compact frame's. */
  lemma {:induction false} ParseOfBuild(control: Byte, manufacturer: bv16, address: U32,
                                        version: Byte, deviceType: Byte, ci: Byte, payload: seq<Byte>)
    ensures ParseWmbusFrame(FrameBytes(control, manufacturer, address, version, deviceType, ci, payload))
         == Ok(Built(control, manufacturer, address, version, deviceType, ci, payload))
       <==> |payload| <= 245 && !(Low(manufacturer) == 0x79 && !IsApplicationCi(ci))
  {
    var raw := FrameBytes(control, manufacturer, address, version, deviceType, ci, payload);
    BuiltIsCompactForm(control, manufacturer, address, version, deviceType, ci, payload);
    if IsCompactForm(raw) {
      assert |ParseWmbusFrame(raw).value.payload| == |payload| + 6;
    } else if |payload| <= 245 {
      FrameBytesParts(control, manufacturer, address, version, deviceType, ci, payload);
      FrameBytesFields(control, manufacturer, address, version, deviceType, ci, payload);
      JoinHighLow(manufacturer);
      FromOctets(address);
      JoinHighLow(Crc(raw[..|raw| - 2]));
    }
  }

  lemma {:induction false} BodyOfFull(raw: seq<Byte>)
    requires |raw| >= 13 && |raw| == Number(raw[0]) + 3
    ensures Body(raw[1], Join(raw[3], raw[2]), FromLe32(raw[4], raw[5], raw[6], raw[7]),
                 raw[8], raw[9], raw[10], raw[11..|raw| - 2])
         == raw[..|raw| - 2]
  {
    hide Truncate, Octet0, Octet1, Octet2, Octet3, FromLe32;
    var header, payload := raw[..11], raw[11..|raw| - 2];
    TruncateOf(10 + |payload|, raw[0]);
    HeaderOfHeaderBytes(header);
    assert raw[..|raw| - 2] == header + payload;
  }

  /** Re-encoding an accepted frame gives back the input exactly when it was a full frame:
      a compact frame only carries a signature. */
  lemma {:induction false} BuildOfParse(raw: seq<Byte>)
    requires ParseWmbusFrame(raw).Ok?
    ensures ToBytes(ParseWmbusFrame(raw).value) == raw <==> !IsCompactForm(raw)
  {
    var f := ParseWmbusFrame(raw).value;
    if IsCompactForm(raw) {
      assert |ToBytes(f)| == 13 + (|raw| - 7);
    } else {
      BodyOfFull(raw);
      var stored := raw[|raw| - 2..];
      Le16RoundTrip(stored[1], stored[0]);
      assert CrcBytes(ReadCrcBe(stored)) == stored;
      assert raw == raw[..|raw| - 2] + stored;
    }
  }

  // ---------------------------------------------------------------- in plain terms

  /** Where `build` puts what: words with the low byte first, the CRC last. */
  lemma {:induction false} Layout(control: Byte, manufacturer: bv16, address: U32,
                                  version: Byte, deviceType: Byte, ci: Byte, payload: seq<Byte>)
    ensures var raw := FrameBytes(control, manufacturer, address, version, deviceType, ci, payload);
            && |raw| == 13 + |payload|
            && Number(raw[0]) == (10 + |payload|) % 256 && raw[1] == control
            && raw[2] == Low(manufacturer) && raw[3] == High(manufacturer)
            && Number(raw[4]) + 0x100 * Number(raw[5]) + 0x1_0000 * Number(raw[6])
               + 0x100_0000 * Number(raw[7]) == address
            && raw[8] == version && raw[9] == deviceType && raw[10] == ci
            && raw[11..|raw| - 2] == payload
            && VerifyCrcBe(raw)
  {
    hide Number, Truncate, Octet0, Octet1, Octet2, Octet3;
    var raw := FrameBytes(control, manufacturer, address, version, deviceType, ci, payload);
    FrameBytesParts(control, manufacturer, address, version, deviceType, ci, payload);
    FrameBytesFields(control, manufacturer, address, version, deviceType, ci, payload);
    TruncateIsModulo(10 + |payload|);
    FromOctets(address);
    BuiltIsCompactForm(control, manufacturer, address, version, deviceType, ci, payload);
    AcceptedCrc(raw);
  }

  lemma {:induction false} AcceptedCrc(raw: seq<Byte>)
    requires VerifyWmbusCrc(raw)
    ensures VerifyCrcBe(raw)
  {
  }

  /** Which control and CI bytes count as encrypted, and which CI bytes mark a full frame. */
  lemma {:induction false} CodesAre(control: Byte, ci: Byte)
    ensures IsEncryptedFrame(control, ci) <==> Number(control) >= 128 || 122 <= Number(ci) <= 139
    ensures var n := Number(ci);
            IsApplicationCi(ci) <==>
            || 81 <= n <= 82 || 84 <= n <= 85 || 90 <= n <= 91 || 95 <= n <= 97 || 100 <= n <= 101
            || 105 <= n <= 128 || 138 <= n <= 151 || 160 <= n <= 183
  {
  }

  /** A compact frame: length byte, control byte, 0x79, the signature with its low byte first, the
      payload and the CRC. Short of looking like a full frame it is accepted, with the signature
      in the manufacturer's place and no address. */
  lemma {:induction false} CompactFields(length: Byte, control: Byte, signature: bv16, payload: seq<Byte>)
    ensures var body := [length, control, 0x79, Low(signature), High(signature)] + payload;
            var raw := body + CrcBytes(Crc(body));
            |raw| < 13 || |raw| != Number(length) + 3 || !IsApplicationCi(raw[10]) ==>
              ParseWmbusFrame(raw)
              == Ok(WMBusFrame(length, control, signature, 0, 0, 0, 0x79, payload, Crc(body), false))
  {
    hide Crc, IsApplicationCi, Number;
    var body := [length, control, 0x79, Low(signature), High(signature)] + payload;
    var raw := body + CrcBytes(Crc(body));
    var n := |body|;
    assert raw[..n] == body && raw[n..] == CrcBytes(Crc(body));
    assert raw[5..n] == payload;
    assert raw[0] == length && raw[1] == control && raw[2] == 0x79;
    JoinHighLow(signature);
    JoinHighLow(Crc(body));
  }
}
