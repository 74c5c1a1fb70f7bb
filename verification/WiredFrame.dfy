/** Wired M-Bus frames of EN 13757-2: parsing, packing and checking (src/mbus/frame.rs). */
module WiredFrame {
  import opened Wrappers
  import opened Casts
  import opened Checksum

  datatype FrameType = Ack | Short | Control | Long

  datatype MBusFrame = MBusFrame(
    frameType: FrameType,
    control: Byte,
    address: Byte,
    controlInformation: Byte,
    data: seq<Byte>,
    checksum: Byte,
    moreRecordsFollow: bool)

  /** The parser library's error kinds that occur here. */
  datatype ParseError = Eof | Tag | TakeWhileMN

  // ---------------------------------------------------------------- checksum

  function ChecksumOf(f: MBusFrame): Byte {
    match f.frameType
    case Ack => 0
    case Short => Scalar([f.control, f.address])
    case Control => Scalar([f.control, f.address, f.controlInformation])
    case Long => Scalar([f.control, f.address, f.controlInformation] + f.data)
  }

  method CalculateChecksum(f: MBusFrame, features: Features) returns (checksum: Byte)
    ensures checksum == ChecksumOf(f)
  {
    match f.frameType {
      case Short =>
        checksum := CalculateChecksumOptimized([f.control, f.address], features);
      case Control =>
        checksum := CalculateChecksumOptimized([f.control, f.address, f.controlInformation], features);
      case Long =>
        var data := [f.control, f.address, f.controlInformation];
        data := data + f.data;
        checksum := CalculateChecksumOptimized(data, features);
      case Ack =>
        checksum := 0;
    }
  }

  predicate Verified(f: MBusFrame) {
    f.checksum == ChecksumOf(f)
  }

  datatype ChecksumError = InvalidChecksum(expected: Byte, calculated: Byte)

  method VerifyFrame(f: MBusFrame, features: Features) returns (r: Result<(), ChecksumError>)
    ensures r.Ok? <==> Verified(f)
    ensures r.Err? ==> r.error == InvalidChecksum(f.checksum, ChecksumOf(f))
  {
    var calculated := CalculateChecksum(f, features);
    if f.checksum != calculated {
      return Err(InvalidChecksum(f.checksum, calculated));
    }
    return Ok(());
  }

  // ---------------------------------------------------------------- packing

  function LengthByte(f: MBusFrame): Byte {
    Truncate(if |f.data| + 3 < 255 then |f.data| + 3 else 255)
  }

  function Packed(f: MBusFrame): (bytes: seq<Byte>)
    ensures bytes != []
  {
    match f.frameType
    case Ack => [0xE5]
    case Short => [0x10, f.control, f.address, ChecksumOf(f), 0x16]
    case _ =>
      [0x68, LengthByte(f), LengthByte(f), 0x68, f.control, f.address, f.controlInformation]
      + f.data + [ChecksumOf(f), 0x16]
  }

  method PackFrame(f: MBusFrame, features: Features) returns (data: seq<Byte>)
    ensures data == Packed(f)
  {
    hide ChecksumOf;
    data := [];
    match f.frameType {
      case Ack =>
        data := data + [0xE5];
      case Short =>
        data := data + [0x10];
        data := data + [f.control];
        data := data + [f.address];
        var checksum := CalculateChecksum(f, features);
        data := data + [checksum];
        data := data + [0x16];
      case _ =>
        data := PackControlOrLongFrame(data, f, features);
    }
  }

  method PackControlOrLongFrame(start: seq<Byte>, f: MBusFrame, features: Features) returns (data: seq<Byte>)
    ensures data == start + [0x68, LengthByte(f), LengthByte(f), 0x68, f.control, f.address, f.controlInformation]
                          + f.data + [ChecksumOf(f), 0x16]
  {
    hide ChecksumOf, LengthByte;
    data := start + [0x68];
    var length := LengthByte(f);
    data := data + [length];
    data := data + [length];
    data := data + [0x68];
    data := data + [f.control];
    data := data + [f.address];
    data := data + [f.controlInformation];
    assert data == start + [0x68, length, length, 0x68, f.control, f.address, f.controlInformation];
    data := data + f.data;
    var checksum := CalculateChecksum(f, features);
    ghost var before := data;
    data := data + [checksum];
    data := data + [0x16];
    assert data == before + [checksum, 0x16];
  }

  // ---------------------------------------------------------------- parsing

  /** The payload length a length byte announces: control, address and CI are counted in it. */
  function PayloadLength(length: Byte): nat {
    if Number(length) < 3 then 0 else Number(length) - 3
  }

  /** Parses one frame; returns the rest of the input with it. */
  function ParseFrame(input: seq<Byte>): Result<(seq<Byte>, MBusFrame), ParseError> {
    if input == [] then Err(Eof)
    else if input[0] == 0xE5 then Ok((input[1..], MBusFrame(Ack, 0, 0, 0, [], 0, false)))
    else if input[0] == 0x10 then
      if |input| < 5 then Err(Eof)
      else if input[4] != 0x16 then Err(Tag)
      else Ok((input[5..], MBusFrame(Short, input[1], input[2], 0, [], input[3], false)))
    else if input[0] == 0x68 then
      if |input| < 3 then Err(Eof)
      else if input[1] != input[2] then Err(Tag)
      else if |input| < 4 then Err(Eof)
      else if input[3] != 0x68 then Err(Tag)
      else if |input| < 7 then Err(Eof)
      else
        var n := PayloadLength(input[1]);
        var frameType := if Number(input[1]) == 3 then Control else Long;
        if |input| < 7 + n then Err(TakeWhileMN)
        else if |input| < 9 + n then Err(Eof)
        else if input[8 + n] != 0x16 then Err(Tag)
        else Ok((input[9 + n..],
                 MBusFrame(frameType, input[4], input[5], input[6], input[7..7 + n], input[7 + n], false)))
    else Err(Tag)
  }

  // ---------------------------------------------------------------- inverses

  /** The frames that exist on the wire. */
  predicate WellFormed(f: MBusFrame) {
    && !f.moreRecordsFollow
    && Verified(f)
    && match f.frameType
       case Ack => f.control == 0 && f.address == 0 && f.controlInformation == 0 && f.data == []
       case Short => f.controlInformation == 0 && f.data == []
       case Control => f.data == []
       case Long => 1 <= |f.data| <= 252
  }

  lemma {:induction false} LengthByteRoundTrip(f: MBusFrame)
    ensures PayloadLength(LengthByte(f)) == if |f.data| < 252 then |f.data| else 252
    ensures Number(LengthByte(f)) == 3 <==> f.data == []
  {
    TruncateSmall(if |f.data| + 3 < 255 then |f.data| + 3 else 255);
  }

  /** Parsing a packed frame, whatever follows it, gives the frame and the rest back exactly
      for the well-formed frames. */
  lemma {:induction false} ParseOfPack(f: MBusFrame, rest: seq<Byte>)
    ensures ParseFrame(Packed(f) + rest) == Ok((rest, f)) <==> WellFormed(f)
  {
    hide ChecksumOf, LengthByte, PayloadLength, Number;
    if f.frameType.Ack? {
      assert (Packed(f) + rest)[1..] == rest;
      assert ChecksumOf(f) == 0 by {
        AckChecksum(f);
      }
    } else if f.frameType.Short? {
      assert (Packed(f) + rest)[5..] == rest;
    } else {
      ParseOfLongPack(f, rest);
    }
  }

  lemma {:induction false} AckChecksum(f: MBusFrame)
    requires f.frameType.Ack?
    ensures ChecksumOf(f) == 0
  {
  }

  lemma {:induction false} ParseOfLongPack(f: MBusFrame, rest: seq<Byte>)
    requires f.frameType.Control? || f.frameType.Long?
    ensures ParseFrame(Packed(f) + rest) == Ok((rest, f)) <==> WellFormed(f)
  {
    hide ChecksumOf, LengthByte, PayloadLength, Number;
    var input := Packed(f) + rest;
    LengthByteRoundTrip(f);
    var n := PayloadLength(LengthByte(f));
    assert input[1] == LengthByte(f) == input[2];
    if n == |f.data| {
      assert input[7..7 + n] == f.data;
      assert input[7 + n] == ChecksumOf(f) && input[8 + n] == 0x16;
      assert input[9 + n..] == rest;
    } else if ParseFrame(input).Ok? {
      assert |ParseFrame(input).value.1.data| == n;
    }
  }

  lemma {:induction false} LongParts(input: seq<Byte>, rest: seq<Byte>, f: MBusFrame) returns (n: nat)
    requires ParseFrame(input) == Ok((rest, f)) && (f.frameType.Control? || f.frameType.Long?)
    ensures n == PayloadLength(input[1]) == |f.data| && 9 + n <= |input| && rest == input[9 + n..]
    ensures input[0] == 0x68 && input[2] == input[1] && input[3] == 0x68
    ensures input[4] == f.control && input[5] == f.address && input[6] == f.controlInformation
    ensures input[7..7 + n] == f.data && input[7 + n] == f.checksum && input[8 + n] == 0x16
  {
    hide PayloadLength, Number;
    n := PayloadLength(input[1]);
  }

  lemma {:induction false} PackOfLongParse(input: seq<Byte>, rest: seq<Byte>, f: MBusFrame)
    requires ParseFrame(input) == Ok((rest, f)) && (f.frameType.Control? || f.frameType.Long?)
    ensures |rest| <= |input| && input[|input| - |rest|..] == rest
    ensures Packed(f) == input[..|input| - |rest|] <==> Verified(f) && Number(input[1]) >= 3
  {
    hide ChecksumOf, PayloadLength, Number, LengthByte, ParseFrame;
    var n := LongParts(input, rest, f);
    var consumed := input[..9 + n];
    var head := [0x68, input[1], input[1], 0x68, f.control, f.address, f.controlInformation];
    assert consumed == head + f.data + [f.checksum, 0x16];
    LengthByteRoundTrip(f);
    LengthByteMatches(f, input[1]);
    assert Packed(f)[7 + n] == ChecksumOf(f) && consumed[7 + n] == f.checksum;
    assert Packed(f)[1] == LengthByte(f) && consumed[1] == input[1];
  }

  lemma {:induction false} LengthByteMatches(f: MBusFrame, length: Byte)
    requires |f.data| == PayloadLength(length)
    ensures LengthByte(f) == length <==> Number(length) >= 3
  {
    LengthByteRoundTrip(f);
    if Number(length) >= 3 {
      TruncateOf(|f.data| + 3, length);
    }
  }

  /** An accepted input is what its frame packs to exactly when the checksum verifies and the
      length byte counts at least the three fixed fields. */
  lemma {:induction false} PackOfParse(input: seq<Byte>, rest: seq<Byte>, f: MBusFrame)
    requires ParseFrame(input) == Ok((rest, f))
    ensures |rest| <= |input| && input[|input| - |rest|..] == rest
    ensures Packed(f) == input[..|input| - |rest|]
       <==> Verified(f) && !(input[0] == 0x68 && Number(input[1]) < 3)
  {
    hide ChecksumOf, PayloadLength, Number, LengthByte;
    if f.frameType.Ack? {
      AckChecksum(f);
      assert input[..1] == [0xE5];
    } else if f.frameType.Short? {
      assert input[..5] == [0x10, f.control, f.address, f.checksum, 0x16];
      assert Packed(f)[3] == ChecksumOf(f) && input[..5][3] == f.checksum;
    } else {
      PackOfLongParse(input, rest, f);
    }
  }

  // ---------------------------------------------------------------- in plain terms

  /** What goes on the wire, byte by byte. The checksum is the sum of the bytes from the control
      byte to the last data byte. */
  lemma {:induction false} Layout(f: MBusFrame)
    ensures f.frameType.Ack? ==> Packed(f) == [0xE5]
    ensures f.frameType.Short? ==>
              var b := Packed(f);
              && |b| == 5 && b[0] == 0x10 && b[1] == f.control && b[2] == f.address && b[4] == 0x16
              && Number(b[3]) == ByteSum([f.control, f.address]) % 256
    ensures f.frameType.Long? || (f.frameType.Control? && f.data == []) ==>
              var b, n := Packed(f), |f.data|;
              && |b| == 9 + n && b[0] == b[3] == 0x68 && b[8 + n] == 0x16
              && Number(b[1]) == Number(b[2]) == (if n + 3 < 255 then n + 3 else 255)
              && b[4] == f.control && b[5] == f.address && b[6] == f.controlInformation && b[7..7 + n] == f.data
              && Number(b[7 + n]) == ByteSum([f.control, f.address, f.controlInformation] + f.data) % 256
  {
    hide Number, Truncate, ByteSum, Scalar;
    ScalarIsSum([f.control, f.address]);
    ScalarIsSum([f.control, f.address, f.controlInformation]);
    ScalarIsSum([f.control, f.address, f.controlInformation] + f.data);
    assert [f.control, f.address, f.controlInformation] + [] == [f.control, f.address, f.controlInformation];
    TruncateSmall(if |f.data| + 3 < 255 then |f.data| + 3 else 255);
  }

  /** A frame cut short is never accepted: the end of the input is reported, inside the data of a
      long frame as too few of the bytes wanted there. */
  lemma {:induction false} CutFrame(f: MBusFrame, k: nat)
    requires WellFormed(f) && k < |Packed(f)|
    ensures ParseFrame(Packed(f)[..k]) == Err(if 7 <= k < 7 + |f.data| then TakeWhileMN else Eof)
  {
    hide ChecksumOf, LengthByte, PayloadLength, Number;
    if f.frameType.Control? || f.frameType.Long? {
      LengthByteRoundTrip(f);
    }
  }

  /** A wrong byte where a start, stop or repeated length byte belongs is reported as such. */
  lemma {:induction false} WrongByte(f: MBusFrame, i: nat, b: Byte, rest: seq<Byte>)
    requires WellFormed(f) && i < |Packed(f)| && b != Packed(f)[i]
    requires i == |Packed(f)| - 1 || (f.frameType in {Control, Long} && (i == 2 || i == 3))
    requires i == 0 ==> b !in {0xE5, 0x10, 0x68}
    ensures ParseFrame(Packed(f)[i := b] + rest) == Err(Tag)
  {
    hide ChecksumOf, LengthByte, PayloadLength, Number;
    if f.frameType.Control? || f.frameType.Long? {
      LengthByteRoundTrip(f);
    }
  }
}
