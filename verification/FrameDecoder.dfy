/** The streaming decoder for wireless frames (src/wmbus/frame_decode.rs) over its byte buffer
    (src/util/iobuffer.rs). Log throttling is not part of this file's model. */
module FrameDecoding {
  import opened Wrappers
  import opened Casts
  import opened WmbusCrc
  import opened ModeC
  import opened WirelessFrame

  // ---------------------------------------------------------------- the buffer

  const DEFAULT_CAPACITY_LIMIT := 10 * 1024 * 1024

  datatype IoBufferError =
    | InsufficientCapacity(requested: nat, available: nat)
    | CapacityExceeded(limit: nat)

  class IoBuffer {
    var data: seq<Byte>
    var capacityLimit: Option<nat>
    var bytesWritten: nat
    var bytesConsumed: nat

    constructor WithCapacity(capacity: nat)
      ensures data == [] && capacityLimit == Some(DEFAULT_CAPACITY_LIMIT)
      ensures bytesWritten == 0 && bytesConsumed == 0
    {
      data := [];
      capacityLimit := Some(DEFAULT_CAPACITY_LIMIT);
      bytesWritten := 0;
      bytesConsumed := 0;
    }

    function TryReserve(additional: nat): (r: Result<(), IoBufferError>)
      reads this
    {
      if capacityLimit.Some? && |data| + additional > capacityLimit.value
      then Err(CapacityExceeded(capacityLimit.value))
      else Ok(())
    }

    /** All or nothing: a write that does not fit leaves the buffer as it was. */
    method Write(bytes: seq<Byte>) returns (r: Result<nat, IoBufferError>)
      modifies this
      ensures capacityLimit == old(capacityLimit) && bytesConsumed == old(bytesConsumed)
      ensures r.Ok? <==> (old(capacityLimit).Some? ==> |old(data)| + |bytes| <= old(capacityLimit).value)
      ensures r.Ok? ==> r.value == |bytes| && data == old(data) + bytes
                        && bytesWritten == old(bytesWritten) + |bytes|
      ensures r.Err? ==> data == old(data) && bytesWritten == old(bytesWritten)
                         && r.error == CapacityExceeded(old(capacityLimit).value)
    {
      var reserved := TryReserve(|bytes|);
      if reserved.Err? {
        return Err(reserved.error);
      }
      data := data + bytes;
      bytesWritten := bytesWritten + |bytes|;
      return Ok(|bytes|);
    }

    /** Takes up to `count` bytes from the front, one by one. */
    method Consume(count: nat) returns (result: seq<Byte>)
      modifies this
      ensures capacityLimit == old(capacityLimit) && bytesWritten == old(bytesWritten)
      ensures result + data == old(data)
      ensures |result| == if count < |old(data)| then count else |old(data)|
      ensures bytesConsumed == old(bytesConsumed) + |result|
    {
      var available := |data|;
      var toConsume := if count < available then count else available;
      result := [];
      for i := 0 to toConsume
        invariant |result| == i && result + data == old(data)
        invariant capacityLimit == old(capacityLimit) && bytesWritten == old(bytesWritten)
        invariant bytesConsumed == old(bytesConsumed)
      {
        var byte := data[0];
        data := data[1..];
        result := result + [byte];
      }
      bytesConsumed := bytesConsumed + |result|;
    }

    method ConsumeExact(count: nat) returns (r: Result<seq<Byte>, IoBufferError>)
      modifies this
      ensures capacityLimit == old(capacityLimit) && bytesWritten == old(bytesWritten)
      ensures r.Ok? <==> count <= |old(data)|
      ensures r.Ok? ==> r.value == old(data)[..count] && data == old(data)[count..]
                        && bytesConsumed == old(bytesConsumed) + count
      ensures r.Err? ==> data == old(data) && bytesConsumed == old(bytesConsumed)
                         && r.error == InsufficientCapacity(count, |old(data)|)
    {
      if |data| < count {
        return Err(InsufficientCapacity(count, |data|));
      }
      var bytes := Consume(count);
      return Ok(bytes);
    }

    function Peek(count: nat): (bytes: seq<Byte>)
      reads this
      ensures bytes <= data && |bytes| == if count < |data| then count else |data|
    {
      data[..if count < |data| then count else |data|]
    }

    method Clear()
      modifies this
      ensures data == [] && capacityLimit == old(capacityLimit)
      ensures bytesWritten == old(bytesWritten) && bytesConsumed == old(bytesConsumed)
    {
      data := [];
    }
  }

  // ---------------------------------------------------------------- the decoder on values

  datatype DecodeStats = DecodeStats(
    framesReceived: nat,
    framesDecoded: nat,
    crcErrors: nat,
    headerErrors: nat,
    encryptionDetected: nat,
    typeAFrames: nat,
    typeBFrames: nat)

  const NO_STATS := DecodeStats(0, 0, 0, 0, 0, 0, 0)

  /** What processing frames leaves behind, besides the frames. */
  datatype Log = Log(currentFrameType: Option<FrameType>, stats: DecodeStats)

  datatype Decoder = Decoder(buffer: seq<Byte>, expectedSize: Option<nat>, log: Log)

  const NEW_DECODER := Decoder([], None, Log(None, NO_STATS))

  function ControlInfo(link: LinkFrame): Byte {
    if link.payload == [] then 0 else link.payload[0]
  }

  function ApplicationData(link: LinkFrame): seq<Byte> {
    if link.payload == [] then [] else link.payload[1..]
  }

  predicate EncryptedCi(ci: Byte) {
    ci == 0x7A || ci == 0x7B || ci == 0x8A || ci == 0x8B
  }

  function TrailingCrc(frame: seq<Byte>): bv16 {
    if |frame| < 2 then 0 else ReadCrcBe(frame[|frame| - 2..])
  }

  /** The frame reported for a link frame whose CRCs are all right. */
  function Reported(frame: seq<Byte>, link: LinkFrame): WMBusFrame {
    WMBusFrame(
      if |frame| > 1 then frame[1] else 0,
      link.controlField, link.manufacturerId, link.deviceAddress, link.version, link.deviceType,
      ControlInfo(link), ApplicationData(link), TrailingCrc(frame), EncryptedCi(ControlInfo(link)))
  }

  function CountType(stats: DecodeStats, t: FrameType): DecodeStats {
    match t
    case TypeA => stats.(typeAFrames := stats.typeAFrames + 1)
    case TypeB => stats.(typeBFrames := stats.typeBFrames + 1)
    case Unknown => stats
  }

  function Process(frame: seq<Byte>, log: Log): (Result<WMBusFrame, DecodeError>, Log) {
    match Decode(frame)
    case Err(e) => (Err(e), log)
    case Ok(link) =>
      var stats := CountType(log.stats, link.frameType);
      var current := Some(link.frameType);
      if !link.crcOk then
        (Err(CrcMismatch(TrailingCrc(frame), 0)), Log(current, stats.(crcErrors := stats.crcErrors + 1)))
      else
        var stats' := if EncryptedCi(ControlInfo(link))
                      then stats.(encryptionDetected := stats.encryptionDetected + 1) else stats;
        (Ok(Reported(frame, link)), Log(current, stats'))
  }

  function CountReceived(log: Log): Log {
    log.(stats := log.stats.(framesReceived := log.stats.framesReceived + 1))
  }

  function CountDecoded(log: Log): Log {
    log.(stats := log.stats.(framesDecoded := log.stats.framesDecoded + 1))
  }

  function CountHeaderError(log: Log): Log {
    log.(stats := log.stats.(headerErrors := log.stats.headerErrors + 1))
  }

  /** The state after `add_bytes`. */
  function Added(d: Decoder, bytes: seq<Byte>): (Decoder, Result<(), DecodeError>) {
    if |d.buffer| + |bytes| <= DEFAULT_CAPACITY_LIMIT
    then (d.(buffer := d.buffer + bytes), Ok(()))
    else (d, Err(ProcessingError))
  }

  /** The state after `determine_frame_size`. */
  function Sized(d: Decoder): (Decoder, Result<Option<nat>, DecodeError>) {
    if |d.buffer| < 2 then (d, Ok(None))
    else
      var n := PacketSize(d.buffer[..2]);
      if n < 0 then (d.(buffer := []), Err(InvalidHeader))
      else (d, Ok(Some(n)))
  }

  /** The state after one frame of `size` bytes has been taken and processed. */
  function Taken(d: Decoder, size: nat): (Decoder, Result<Option<WMBusFrame>, DecodeError>)
    requires size <= |d.buffer|
  {
    var rest := d.buffer[size..];
    var (r, log) := Process(d.buffer[..size], CountReceived(d.log));
    match r
    case Ok(frame) => (Decoder(rest, None, CountDecoded(log)), Ok(Some(frame)))
    case Err(e) =>
      if e.InvalidHeader? then (Decoder([], None, CountHeaderError(log)), Ok(None))
      else (Decoder(rest, None, log), Err(e))
  }

  /** The state after one `try_decode_frame`. After a frame with a bad header the source's loop
      goes round once more on the emptied buffer and finds nothing. */
  function Tried(d: Decoder): (Decoder, Result<Option<WMBusFrame>, DecodeError>) {
    if d.expectedSize.None? then
      var (d1, size) := Sized(d);
      match size
      case Err(e) => (d1, Err(e))
      case Ok(None) => (d1, Ok(None))
      case Ok(Some(n)) => TriedKnowing(d1, n)
    else TriedKnowing(d, d.expectedSize.value)
  }

  function TriedKnowing(d: Decoder, size: nat): (Decoder, Result<Option<WMBusFrame>, DecodeError>) {
    if |d.buffer| < size then (d.(expectedSize := Some(size)), Ok(None)) else Taken(d, size)
  }

  /** A remembered size is the one the buffered header announces. */
  predicate Consistent(d: Decoder) {
    d.expectedSize.Some? ==>
      |d.buffer| >= 2 && d.expectedSize.value == PacketSize(d.buffer[..2])
  }

  // ---------------------------------------------------------------- the decoder itself

  class FrameDecoder {
    const buffer: IoBuffer
    var currentFrameType: Option<FrameType>
    var expectedSize: Option<nat>
    var stats: DecodeStats

    ghost function State(): Decoder
      reads this, buffer
    {
      Decoder(buffer.data, expectedSize, Log(currentFrameType, stats))
    }

    ghost predicate Valid()
      reads this, buffer
    {
      buffer.capacityLimit == Some(DEFAULT_CAPACITY_LIMIT) && Consistent(State())
    }

    constructor ()
      ensures Valid() && fresh(buffer) && State() == NEW_DECODER
    {
      buffer := new IoBuffer.WithCapacity(512);
      currentFrameType := None;
      expectedSize := None;
      stats := NO_STATS;
    }

    method AddBytes(bytes: seq<Byte>) returns (r: Result<(), DecodeError>)
      requires Valid()
      modifies buffer
      ensures Valid() && (State(), r) == Added(old(State()), bytes)
    {
      var w := buffer.Write(bytes);
      assert w.Ok? && expectedSize.Some? ==> buffer.data[..2] == old(buffer.data)[..2];
      return if w.Ok? then Ok(()) else Err(ProcessingError);
    }

    method DetermineFrameSize() returns (r: Result<Option<nat>, DecodeError>)
      requires Valid() && expectedSize.None?
      modifies buffer
      ensures Valid() && (State(), r) == Sized(old(State()))
    {
      if |buffer.data| < 2 {
        return Ok(None);
      }
      var header := buffer.Peek(2);
      assert header == buffer.data[..2];
      var n := PacketSize(header);
      if n == -1 {
        return Ok(None);
      } else if n < 0 {
        buffer.Clear();
        return Err(InvalidHeader);
      } else {
        return Ok(Some(n));
      }
    }

    method ProcessFrame(frame: seq<Byte>) returns (r: Result<WMBusFrame, DecodeError>)
      modifies this`currentFrameType, this`stats
      ensures (r, Log(currentFrameType, stats)) == Process(frame, old(Log(currentFrameType, stats)))
    {
      hide Decode, ReadCrcBe;
      var decoded := DecodeModeC(frame);
      if decoded.Err? {
        return Err(decoded.error);
      }
      var link := decoded.value;
      currentFrameType := Some(link.frameType);
      match link.frameType {
        case TypeA => stats := stats.(typeAFrames := stats.typeAFrames + 1);
        case TypeB => stats := stats.(typeBFrames := stats.typeBFrames + 1);
        case Unknown =>
      }
      var trailingCrc := TrailingCrc(frame);
      if !link.crcOk {
        stats := stats.(crcErrors := stats.crcErrors + 1);
        return Err(CrcMismatch(trailingCrc, 0));
      }
      var encrypted := EncryptedCi(ControlInfo(link));
      if encrypted {
        stats := stats.(encryptionDetected := stats.encryptionDetected + 1);
      }
      return Ok(Reported(frame, link));
    }

    method TryDecodeFrame() returns (r: Result<Option<WMBusFrame>, DecodeError>)
      requires Valid()
      modifies this, buffer
      ensures Valid() && (State(), r) == Tried(old(State()))
    {
      hide Process, PacketSize;
      while true
        invariant Valid()
        invariant State() == old(State())
               || (State().buffer == [] && expectedSize.None? && Tried(old(State())) == (State(), Ok(None)))
        decreases |buffer.data|
      {
        if expectedSize.None? {
          var size := DetermineFrameSize();
          match size {
            case Err(e) => return Err(e);
            case Ok(None) => return Ok(None);
            case Ok(Some(n)) => expectedSize := Some(n);
          }
        }
        var expected := expectedSize.value;
        if |buffer.data| < expected {
          return Ok(None);
        }
        var taken := buffer.ConsumeExact(expected);
        expectedSize := None;
        stats := stats.(framesReceived := stats.framesReceived + 1);
        var processed := ProcessFrame(taken.value);
        match processed {
          case Ok(frame) =>
            stats := stats.(framesDecoded := stats.framesDecoded + 1);
            return Ok(Some(frame));
          case Err(e) =>
            if e.InvalidHeader? {
              stats := stats.(headerErrors := stats.headerErrors + 1);
              buffer.Clear();
            } else {
              return Err(e);
            }
        }
      }
    }
  }
}
