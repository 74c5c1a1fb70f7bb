/** The mode C link layer: where a frame ends (src/wmbus/radio/rfm69_packet.rs) and what is
    inside it (src/wmbus/mode_c.rs). */
module ModeC {
  import opened Wrappers
  import opened Casts
  import opened WmbusCrc
  import opened Digits

  const TYPE_A_SYNC: Byte := 0xCD
  const TYPE_B_SYNC: Byte := 0x3D
  const HEADER_LEN := 10
  const TYPE_A_BLOCK_LEN := 16
  const CRC_LEN := 2

  datatype FrameType = TypeA | TypeB | Unknown

  datatype DecodeError =
    | BufferTooShort(needed: nat, actual: nat)
    | InvalidHeader
    | CrcMismatch(expected: bv16, calculated: bv16)
    | InvalidLength(length: Byte)
    | ProcessingError

  datatype LinkFrame = LinkFrame(
    frameType: FrameType,
    controlField: Byte,
    manufacturerId: bv16,
    deviceAddress: U32,
    version: Byte,
    deviceType: Byte,
    payload: seq<Byte>,
    crcOk: bool)

  // ---------------------------------------------------------------- where a frame ends

  function SyncNorm(sync: Byte): Byte {
    if sync == 0xB3 then TYPE_A_SYNC else if sync == 0xBC then TYPE_B_SYNC else sync
  }

  predicate IsSync(b: Byte) {
    SyncNorm(b) == TYPE_A_SYNC || SyncNorm(b) == TYPE_B_SYNC
  }

  function WmbusPacketLen(l: nat, typeB: bool): (n: nat)
    ensures n >= 2
  {
    if typeB then l + 2
    else
      var numCrcs := 1 + ((if l > 10 then l - 10 else 0) + 15) / 16;
      2 + l + numCrcs * 2
  }

  /** Total length from the first two bytes: -1 for "need more", -2 for "not a header". */
  function PacketSize(data: seq<Byte>): (n: int)
    ensures n == -1 <==> |data| < 2
    ensures n == -1 || n == -2 || n >= 2
  {
    if |data| < 2 then -1
    else if IsSync(data[0]) then WmbusPacketLen(Number(data[1]), SyncNorm(data[0]) == TYPE_B_SYNC)
    else if IsSync(data[1]) then WmbusPacketLen(Number(data[0]), SyncNorm(data[1]) == TYPE_B_SYNC)
    else -2
  }

  lemma {:induction false} PacketSizeOfPrefix(a: seq<Byte>, b: seq<Byte>)
    requires |a| >= 2
    ensures PacketSize(a + b) == PacketSize(a)
    ensures PacketSize(a[..2]) == PacketSize(a)
  {
  }

  /** The size in plain terms: a sync byte, straight or bit-reversed, in either of the first two
      places, with the length byte L in the other. Type B: L + 2. Type A: two more for each
      block's CRC, one block for the first ten bytes and `k` for 16 bytes each of the rest. */
  lemma {:induction false} AnnouncedSize(sync: Byte, length: Byte, rest: seq<Byte>, k: nat)
    requires var over := Number(length) - 10; over <= 16 * k && (k == 0 || 16 * (k - 1) < over)
    ensures sync in {0xCD, 0xB3} ==>
              PacketSize([sync, length] + rest) == 2 + Number(length) + 2 * (1 + k)
    ensures sync in {0x3D, 0xBC} ==> PacketSize([sync, length] + rest) == 2 + Number(length)
    ensures length !in {0xCD, 0xB3, 0x3D, 0xBC} ==>
              PacketSize([length, sync] + rest) ==
              if sync in {0xCD, 0xB3, 0x3D, 0xBC} then PacketSize([sync, length]) else -2
  {
    hide Number;
    var over := Number(length) - 10;
    if over > 0 {
      assert (over + 15) / 16 == k;
    }
  }

  // ---------------------------------------------------------------- what is inside a frame

  predicate VerifyBlock(data: seq<Byte>, crcBytes: seq<Byte>) {
    |crcBytes| >= CRC_LEN && Crc(data) == ReadCrcBe(crcBytes)
  }

  /** BCD address, least significant byte first. Four bytes stay within the source's `u32`. */
  function Bcd4(bytes: seq<Byte>): (v: nat)
    ensures |bytes| == 0 ==> v == 0
    ensures |bytes| == 1 ==> v <= 165
    ensures |bytes| == 2 ==> v <= 16_665
    ensures |bytes| == 3 ==> v <= 1_666_665
    ensures |bytes| == 4 ==> v <= 166_666_665
  {
    if bytes == [] then 0 else Bcd4(bytes[1..]) * 100 + Number(bytes[0] >> 4) * 10 + Number(bytes[0] & 0x0F)
  }

  /** The Type A data blocks from `pos` on: whether all validate, and their contents. */
  function TypeABlocks(raw: seq<Byte>, pos: nat, remaining: nat): (r: (bool, seq<Byte>))
    requires pos <= |raw|
    decreases remaining
  {
    if remaining == 0 then (true, [])
    else
      var n := if remaining < TYPE_A_BLOCK_LEN then remaining else TYPE_A_BLOCK_LEN;
      if pos + n + CRC_LEN > |raw| then (false, [])
      else
        var (ok, rest) := TypeABlocks(raw, pos + n + CRC_LEN, remaining - n);
        (VerifyBlock(raw[pos..pos + n], raw[pos + n..pos + n + CRC_LEN]) && ok, raw[pos..pos + n] + rest)
  }

  function Link(raw: seq<Byte>, frameType: FrameType, payload: seq<Byte>, crcOk: bool): LinkFrame
    requires |raw| >= 1 + HEADER_LEN
  {
    LinkFrame(frameType, raw[2], Join(raw[4], raw[3]), Bcd4(raw[5..9]), raw[9], raw[10], payload, crcOk)
  }

  function DecodeTypeA(raw: seq<Byte>): LinkFrame
    requires |raw| >= 1 + HEADER_LEN + CRC_LEN
  {
    var headerOk := VerifyBlock(raw[1..1 + HEADER_LEN], raw[1 + HEADER_LEN..1 + HEADER_LEN + CRC_LEN]);
    var l := Number(raw[1]);
    var remaining := if l > HEADER_LEN - 1 then l - (HEADER_LEN - 1) else 0;
    var (ok, payload) := TypeABlocks(raw, 1 + HEADER_LEN + CRC_LEN, remaining);
    Link(raw, TypeA, payload, headerOk && ok)
  }

  function DecodeTypeB(raw: seq<Byte>): Result<LinkFrame, DecodeError>
    requires |raw| >= 1 + HEADER_LEN + CRC_LEN
  {
    var l := Number(raw[1]);
    if l < 1 then Err(InvalidLength(raw[1]))
    else
      var b0 := l - 1;
      if 1 + b0 + CRC_LEN > |raw| then Err(BufferTooShort(1 + b0 + CRC_LEN, |raw|))
      else
        var ok0 := VerifyBlock(raw[1..1 + b0], raw[1 + b0..1 + b0 + CRC_LEN]);
        var payload0 := if 1 + b0 > 1 + HEADER_LEN then raw[1 + HEADER_LEN..1 + b0] else [];
        var after := 1 + b0 + CRC_LEN;
        if after + CRC_LEN <= |raw| then
          var b2 := raw[after..|raw| - CRC_LEN];
          Ok(Link(raw, TypeB, payload0 + b2, ok0 && VerifyBlock(b2, raw[|raw| - CRC_LEN..])))
        else Ok(Link(raw, TypeB, payload0, ok0))
  }

  function Decode(raw: seq<Byte>): Result<LinkFrame, DecodeError> {
    if |raw| < 2 then Err(BufferTooShort(2, |raw|))
    else if raw[0] != TYPE_A_SYNC && raw[0] != TYPE_B_SYNC then Err(InvalidHeader)
    else if |raw| < 1 + HEADER_LEN + CRC_LEN then Err(BufferTooShort(1 + HEADER_LEN + CRC_LEN, |raw|))
    else if raw[0] == TYPE_A_SYNC then Ok(DecodeTypeA(raw))
    else DecodeTypeB(raw)
  }

  lemma {:induction false} TypeABlocksStep(raw: seq<Byte>, pos: nat, remaining: nat)
    requires pos <= |raw|
    ensures remaining == 0 ==> TypeABlocks(raw, pos, remaining) == (true, [])
    ensures remaining > 0 ==>
              var n := if remaining < TYPE_A_BLOCK_LEN then remaining else TYPE_A_BLOCK_LEN;
              if pos + n + CRC_LEN > |raw| then TypeABlocks(raw, pos, remaining) == (false, [])
              else
                var later := TypeABlocks(raw, pos + n + CRC_LEN, remaining - n);
                TypeABlocks(raw, pos, remaining)
                == (VerifyBlock(raw[pos..pos + n], raw[pos + n..pos + n + CRC_LEN]) && later.0,
                    raw[pos..pos + n] + later.1)
  {
    hide VerifyBlock;
  }

  /** The Type A loop over data blocks: `l - 9` application bytes from byte 13 on. */
  method ReadTypeABlocks(raw: seq<Byte>, l: nat) returns (crcOk: bool, payload: seq<Byte>)
    requires |raw| >= 1 + HEADER_LEN + CRC_LEN
    ensures (crcOk, payload) == TypeABlocks(raw, 1 + HEADER_LEN + CRC_LEN,
                                            if l > HEADER_LEN - 1 then l - (HEADER_LEN - 1) else 0)
  {
    hide VerifyBlock, TypeABlocks;
    crcOk, payload := true, [];
    var remaining: int := l - (HEADER_LEN - 1);
    var pos := 1 + HEADER_LEN + CRC_LEN;
    ghost var expected := TypeABlocks(raw, pos, if remaining > 0 then remaining else 0);
    assert payload + expected.1 == expected.1;
    while remaining > 0
      invariant 0 <= pos <= |raw|
      invariant var rest := TypeABlocks(raw, pos, if remaining > 0 then remaining else 0);
                expected == (crcOk && rest.0, payload + rest.1)
    {
      TypeABlocksStep(raw, pos, remaining);
      var blklen := if remaining < TYPE_A_BLOCK_LEN then remaining else TYPE_A_BLOCK_LEN;
      if pos + blklen + CRC_LEN > |raw| {
        crcOk := false;
        assert payload + [] == payload;
        return;
      }
      ghost var rest := TypeABlocks(raw, pos + blklen + CRC_LEN, remaining - blklen).1;
      assert payload + (raw[pos..pos + blklen] + rest) == payload + raw[pos..pos + blklen] + rest;
      if !VerifyBlock(raw[pos..pos + blklen], raw[pos + blklen..pos + blklen + CRC_LEN]) {
        crcOk := false;
      }
      payload := payload + raw[pos..pos + blklen];
      pos := pos + blklen + CRC_LEN;
      remaining := remaining - blklen;
    }
    TypeABlocksStep(raw, pos, 0);
    assert payload + [] == payload;
  }

  /** The Type B branch: block 0 of `l - 1` bytes, and an optional second block. */
  method ReadTypeB(raw: seq<Byte>) returns (r: Result<LinkFrame, DecodeError>)
    requires |raw| >= 1 + HEADER_LEN + CRC_LEN
    ensures r == DecodeTypeB(raw)
  {
    hide VerifyBlock, Link;
    var l := Number(raw[1]);
    if l < 1 {
      return Err(InvalidLength(raw[1]));
    }
    var b0 := l - 1;
    if 1 + b0 + CRC_LEN > |raw| {
      return Err(BufferTooShort(1 + b0 + CRC_LEN, |raw|));
    }
    var payload: seq<Byte> := [];
    var crcOk := VerifyBlock(raw[1..1 + b0], raw[1 + b0..1 + b0 + CRC_LEN]);
    if 1 + b0 > 1 + HEADER_LEN {
      payload := raw[1 + HEADER_LEN..1 + b0];
    }
    var after := 1 + b0 + CRC_LEN;
    if after + CRC_LEN <= |raw| {
      var b2 := raw[after..|raw| - CRC_LEN];
      if !VerifyBlock(b2, raw[|raw| - CRC_LEN..]) {
        crcOk := false;
      }
      payload := payload + b2;
    }
    return Ok(Link(raw, TypeB, payload, crcOk));
  }

  method DecodeModeC(raw: seq<Byte>) returns (r: Result<LinkFrame, DecodeError>)
    ensures r == Decode(raw)
  {
    hide VerifyBlock, Link, TypeABlocks, DecodeTypeB;
    if |raw| < 2 {
      return Err(BufferTooShort(2, |raw|));
    }
    if raw[0] != TYPE_A_SYNC && raw[0] != TYPE_B_SYNC {
      return Err(InvalidHeader);
    }
    if |raw| < 1 + HEADER_LEN + CRC_LEN {
      return Err(BufferTooShort(1 + HEADER_LEN + CRC_LEN, |raw|));
    }
    if raw[0] == TYPE_A_SYNC {
      var headerOk := VerifyBlock(raw[1..1 + HEADER_LEN], raw[1 + HEADER_LEN..1 + HEADER_LEN + CRC_LEN]);
      var blocksOk, payload := ReadTypeABlocks(raw, Number(raw[1]));
      return Ok(Link(raw, TypeA, payload, headerOk && blocksOk));
    } else {
      r := ReadTypeB(raw);
    }
  }

  // ---------------------------------------------------------------- encoding

  /** The link header after the length byte: C, M, M, A, A, A, A, V, T. */
  type LinkHeader = h: seq<Byte> | |h| == 9 witness [0, 0, 0, 0, 0, 0, 0, 0, 0]

  /** A Type B frame: one CRC over the length byte, the header and the application data. */
  function EncodeTypeB(header: LinkHeader, app: seq<Byte>): seq<Byte> {
    var block := [Truncate(11 + |app|)] + header + app;
    [TYPE_B_SYNC] + block + CrcBytes(Crc(block))
  }

  function EncodeBlocks(app: seq<Byte>): seq<Byte> {
    if app == [] then []
    else
      var n := if |app| < TYPE_A_BLOCK_LEN then |app| else TYPE_A_BLOCK_LEN;
      app[..n] + CrcBytes(Crc(app[..n])) + EncodeBlocks(app[n..])
  }

  /** A Type A frame: the header with its CRC, then blocks of at most 16 bytes with theirs. */
  function EncodeTypeA(header: LinkHeader, app: seq<Byte>): seq<Byte> {
    var block0 := [Truncate(9 + |app|)] + header;
    [TYPE_A_SYNC] + block0 + CrcBytes(Crc(block0)) + EncodeBlocks(app)
  }

  lemma {:induction false} EncodedBlockVerifies(data: seq<Byte>)
    ensures VerifyBlock(data, CrcBytes(Crc(data)))
  {
    hide Crc;
    JoinHighLow(Crc(data));
  }

  lemma {:induction false} EncodeBlocksStep(app: seq<Byte>)
    ensures EncodeBlocks([]) == []
    ensures |app| >= TYPE_A_BLOCK_LEN ==>
              EncodeBlocks(app) == app[..TYPE_A_BLOCK_LEN] + CrcBytes(Crc(app[..TYPE_A_BLOCK_LEN]))
                                   + EncodeBlocks(app[TYPE_A_BLOCK_LEN..])
    ensures 0 < |app| < TYPE_A_BLOCK_LEN ==> EncodeBlocks(app) == app + CrcBytes(Crc(app))
  {
    hide Crc;
    if 0 < |app| < TYPE_A_BLOCK_LEN {
      assert app[..|app|] == app && app[|app|..] == [];
      assert EncodeBlocks(app[|app|..]) == [];
    }
  }

  lemma {:induction false} EncodeBlocksLength(app: seq<Byte>)
    ensures |EncodeBlocks(app)| == |app| + 2 * ((|app| + 15) / 16)
  {
    hide Crc;
    if |app| >= TYPE_A_BLOCK_LEN {
      EncodeBlocksLength(app[TYPE_A_BLOCK_LEN..]);
    } else if app != [] {
      assert EncodeBlocks(app[|app|..]) == [];
    }
  }

  /** The loop recovers the application data of encoded blocks, wherever they start and
      whatever follows. */
  lemma {:induction false} BlocksRoundTrip(before: seq<Byte>, app: seq<Byte>, after: seq<Byte>)
    ensures TypeABlocks(before + EncodeBlocks(app) + after, |before|, |app|) == (true, app)
    decreases |app|
  {
    hide VerifyBlock, Crc, TypeABlocks;
    TypeABlocksStep(before + EncodeBlocks(app) + after, |before|, |app|);
    if app != [] {
      var n := if |app| < TYPE_A_BLOCK_LEN then |app| else TYPE_A_BLOCK_LEN;
      var piece, crc, rest := app[..n], CrcBytes(Crc(app[..n])), app[n..];
      var raw := before + EncodeBlocks(app) + after;
      assert raw == before + piece + crc + EncodeBlocks(rest) + after;
      assert raw[|before|..|before| + n] == piece;
      assert raw[|before| + n..|before| + n + CRC_LEN] == crc;
      EncodedBlockVerifies(piece);
      BlocksRoundTrip(before + piece + crc, rest, after);
      assert app == piece + rest;
    }
  }

  /** The frame a decoder should get back from an encoded header and application data. */
  function Expected(frameType: FrameType, header: LinkHeader, app: seq<Byte>): LinkFrame {
    WrittenFits(header[3..7]);
    LinkFrame(frameType, header[0], Join(header[2], header[1]), Written(DigitsOf(header[3..7])),
              header[7], header[8], app, true)
  }

  /** The address loop reads the number that the bytes' digits write. */
  lemma {:induction false} Bcd4IsWritten(bytes: seq<Byte>)
    ensures Bcd4(bytes) == Written(DigitsOf(bytes))
  {
    hide Written, Number;
    if bytes == [] {
      WrittenNothing();
    } else {
      Bcd4IsWritten(bytes[1..]);
      HalvesAre(bytes[0]);
      WrittenTwoMore(DigitsOf(bytes[1..]), Number(bytes[0]) / 16, Number(bytes[0]) % 16);
    }
  }

  lemma {:induction false} WrittenNothing()
    ensures Written([]) == 0
  {
  }

  /** The address is the number written by eight digits packed two a byte, the last two first,
      as in 44 44 64 74 for meter 74644444. */
  lemma {:induction false} AddressIsWritten(header: LinkHeader, digits: seq<nat>, t: FrameType, app: seq<Byte>)
    requires |digits| == 8 && forall i | 0 <= i < 8 :: digits[i] < 16
    requires forall i | 0 <= i < 4 :: Number(header[3 + i]) == 16 * digits[6 - 2 * i] + digits[7 - 2 * i]
    ensures Expected(t, header, app).deviceAddress ==
            10_000_000 * digits[0] + 1_000_000 * digits[1] + 100_000 * digits[2] + 10_000 * digits[3]
            + 1_000 * digits[4] + 100 * digits[5] + 10 * digits[6] + digits[7]
  {
    hide DigitsOf, Number, Written;
    DigitsOfFour(header[3..7], digits);
    WrittenEight(digits);
  }

  lemma {:induction false} HeaderAt(raw: seq<Byte>, header: LinkHeader, frameType: FrameType,
                                    app: seq<Byte>, ok: bool)
    requires |raw| >= 11 && raw[2..11] == header
    ensures Link(raw, frameType, app, ok) == Expected(frameType, header, app).(crcOk := ok)
  {
    hide Bcd4, Written, DigitsOf;
    forall k | 0 <= k < 9
      ensures raw[2 + k] == header[k]
    {
      assert raw[2..11][k] == header[k];
    }
    assert raw[5..9] == raw[2..11][3..7];
    Bcd4IsWritten(raw[5..9]);
  }

  /** Type B: the frame boundary is found and the contents come back, for every application
      data that fits the length byte. */
  lemma {:induction false} TypeBRoundTrip(header: LinkHeader, app: seq<Byte>)
    requires |app| <= 244
    ensures PacketSize(EncodeTypeB(header, app)) == |EncodeTypeB(header, app)|
    ensures Decode(EncodeTypeB(header, app)) == Ok(Expected(TypeB, header, app))
  {
    hide VerifyBlock, Crc, Link, Expected, PacketSize, DecodeTypeB;
    var raw := EncodeTypeB(header, app);
    var block := [Truncate(11 + |app|)] + header + app;
    var n := |block|;
    TruncateSmall(11 + |app|);
    assert raw[1] == block[0];
    assert raw[1..1 + n] == block && raw[1 + n..1 + n + CRC_LEN] == CrcBytes(Crc(block));
    EncodedBlockVerifies(block);
    assert raw[1 + HEADER_LEN..1 + n] == app;
    assert raw[2..11] == header;
    HeaderAt(raw, header, TypeB, app, true);
    ExpectedValid(TypeB, header, app);
    TypeBDecodes(raw, app);
  }

  lemma {:induction false} TypeBDecodes(raw: seq<Byte>, app: seq<Byte>)
    requires |raw| == 13 + |app| && raw[0] == TYPE_B_SYNC && Number(raw[1]) == 11 + |app|
    requires raw[11..11 + |app|] == app && VerifyBlock(raw[1..11 + |app|], raw[11 + |app|..13 + |app|])
    ensures PacketSize(raw) == |raw|
    ensures DecodeTypeB(raw) == Ok(Link(raw, TypeB, app, true))
  {
    hide VerifyBlock, Link;
  }

  lemma {:induction false} TypeAParts(header: LinkHeader, app: seq<Byte>)
    requires |app| <= 246
    ensures var raw := EncodeTypeA(header, app);
            var block0 := [Truncate(9 + |app|)] + header;
            && |raw| >= 13 && Number(raw[1]) == 9 + |app|
            && raw[1..11] == block0 && raw[11..13] == CrcBytes(Crc(block0))
            && raw[2..11] == header
            && raw == raw[..13] + EncodeBlocks(app)
  {
    hide Crc;
    var raw := EncodeTypeA(header, app);
    var block0 := [Truncate(9 + |app|)] + header;
    TruncateSmall(9 + |app|);
    assert raw[1] == block0[0];
    assert raw[1..11] == block0;
    assert raw[2..11] == block0[1..];
  }

  /** Type A, given all its bytes: the contents come back, whatever follows the frame. */
  lemma {:induction false} TypeARoundTrip(header: LinkHeader, app: seq<Byte>, after: seq<Byte>)
    requires |app| <= 246
    ensures Decode(EncodeTypeA(header, app) + after) == Ok(Expected(TypeA, header, app))
  {
    hide VerifyBlock, Crc, Link, Expected, EncodeBlocks, TypeABlocks;
    var frame := EncodeTypeA(header, app);
    TypeAParts(header, app);
    var raw := frame + after;
    assert raw == frame[..13] + EncodeBlocks(app) + after;
    assert raw[1..11] == frame[1..11] && raw[11..13] == frame[11..13] && raw[2..11] == header;
    EncodedBlockVerifies(frame[1..11]);
    BlocksRoundTrip(frame[..13], app, after);
    HeaderAt(raw, header, TypeA, app, true);
    ExpectedValid(TypeA, header, app);
    assert DecodeTypeA(raw) == Link(raw, TypeA, app, true);
  }

  /** Data blocks with any two bytes for each CRC. */
  function BlocksWith(app: seq<Byte>, crcs: seq<seq<Byte>>): seq<Byte>
    requires |crcs| == (|app| + 15) / 16
  {
    if app == [] then []
    else
      var n := if |app| < TYPE_A_BLOCK_LEN then |app| else TYPE_A_BLOCK_LEN;
      app[..n] + crcs[0] + BlocksWith(app[n..], crcs[1..])
  }

  /** The `k`-th 16 bytes, or what is left of them. */
  function Piece(app: seq<Byte>, k: nat): seq<Byte>
    requires 16 * k <= |app|
  {
    if |app| < 16 * (k + 1) then app[16 * k..] else app[16 * k..16 * (k + 1)]
  }

  predicate PiecesVerify(app: seq<Byte>, crcs: seq<seq<Byte>>)
    requires |crcs| == (|app| + 15) / 16
  {
    forall k | 0 <= k < |crcs| :: VerifyBlock(Piece(app, k), crcs[k])
  }

  lemma {:induction false} PiecesStep(app: seq<Byte>, crcs: seq<seq<Byte>>)
    requires app != [] && |crcs| == (|app| + 15) / 16
    ensures var n := if |app| < TYPE_A_BLOCK_LEN then |app| else TYPE_A_BLOCK_LEN;
            && |crcs[1..]| == (|app[n..]| + 15) / 16
            && (PiecesVerify(app, crcs) <==>
                VerifyBlock(app[..n], crcs[0]) && PiecesVerify(app[n..], crcs[1..]))
  {
    hide VerifyBlock;
    var n := if |app| < TYPE_A_BLOCK_LEN then |app| else TYPE_A_BLOCK_LEN;
    assert Piece(app, 0) == app[..n];
    forall k | 1 <= k < |crcs|
      ensures Piece(app, k) == Piece(app[n..], k - 1) && crcs[k] == crcs[1..][k - 1]
    {
    }
    if PiecesVerify(app, crcs) {
      forall k | 0 <= k < |crcs[1..]|
        ensures VerifyBlock(Piece(app[n..], k), crcs[1..][k])
      {
        assert VerifyBlock(Piece(app, k + 1), crcs[k + 1]);
      }
    }
  }

  lemma {:induction false} BlocksAre(before: seq<Byte>, app: seq<Byte>, crcs: seq<seq<Byte>>, after: seq<Byte>)
    requires |crcs| == (|app| + 15) / 16 && forall k | 0 <= k < |crcs| :: |crcs[k]| == 2
    ensures TypeABlocks(before + BlocksWith(app, crcs) + after, |before|, |app|) == (PiecesVerify(app, crcs), app)
    decreases |app|
  {
    hide VerifyBlock, TypeABlocks, PiecesVerify;
    var raw := before + BlocksWith(app, crcs) + after;
    TypeABlocksStep(raw, |before|, |app|);
    if app == [] {
      NoPieces(crcs);
    } else {
      var n := if |app| < TYPE_A_BLOCK_LEN then |app| else TYPE_A_BLOCK_LEN;
      var piece, crc, rest := app[..n], crcs[0], app[n..];
      PiecesStep(app, crcs);
      assert raw == before + piece + crc + BlocksWith(rest, crcs[1..]) + after;
      assert raw[|before|..|before| + n] == piece;
      assert raw[|before| + n..|before| + n + CRC_LEN] == crc;
      BlocksAre(before + piece + crc, rest, crcs[1..], after);
      assert app == piece + rest;
    }
  }

  lemma {:induction false} NoPieces(crcs: seq<seq<Byte>>)
    requires |crcs| == 0
    ensures PiecesVerify([], crcs)
  {
  }

  /** The contents of any complete Type A frame, whatever its CRCs and whatever follows: header
      and data come back in any case, valid if and only if every block is. */
  lemma {:induction false} TypeAContents(header: LinkHeader, app: seq<Byte>, crc: seq<Byte>,
                                         crcs: seq<seq<Byte>>, after: seq<Byte>)
    requires |app| <= 246 && |crc| == 2
    requires |crcs| == (|app| + 15) / 16 && forall k | 0 <= k < |crcs| :: |crcs[k]| == 2
    ensures var block0 := [Truncate(9 + |app|)] + header;
            Decode([TYPE_A_SYNC] + block0 + crc + BlocksWith(app, crcs) + after)
            == Ok(Expected(TypeA, header, app)
                  .(crcOk := VerifyBlock(block0, crc) && PiecesVerify(app, crcs)))
  {
    hide VerifyBlock, Link, Expected, BlocksWith, TypeABlocks, PiecesVerify;
    var block0 := [Truncate(9 + |app|)] + header;
    var before := [TYPE_A_SYNC] + block0 + crc;
    var raw := before + BlocksWith(app, crcs) + after;
    TruncateSmall(9 + |app|);
    assert raw[1] == block0[0];
    assert raw[1..11] == block0 && raw[11..13] == crc && raw[2..11] == header;
    BlocksAre(before, app, crcs, after);
    HeaderAt(raw, header, TypeA, app, VerifyBlock(block0, crc) && PiecesVerify(app, crcs));
  }

  /** The header announces one CRC too few when the last block would hold a single byte. */
  lemma {:induction false} AnnouncedLength(m: nat)
    ensures 13 + m + 2 * ((m + 15) / 16) == WmbusPacketLen(9 + m, false) + if m % 16 == 1 then 2 else 0
  {
    var q, r := m / 16, m % 16;
    assert (m + 15) / 16 == if r == 0 then q else q + 1;
    if m > 0 {
      assert (m + 14) / 16 == if r <= 1 then q else q + 1;
    }
  }

  /** Type A: the boundary the header announces is right exactly when the application data
      does not end one byte into a block. Then it is two bytes short. */
  lemma {:induction false} TypeAPacketSize(header: LinkHeader, app: seq<Byte>)
    requires |app| <= 246
    ensures PacketSize(EncodeTypeA(header, app)) == |EncodeTypeA(header, app)| <==> |app| % 16 != 1
    ensures |app| % 16 == 1 ==>
              PacketSize(EncodeTypeA(header, app)) == |EncodeTypeA(header, app)| - 2
  {
    hide Crc, EncodeBlocks, WmbusPacketLen;
    TypeAParts(header, app);
    EncodeBlocksLength(app);
    AnnouncedLength(|app|);
    assert PacketSize(EncodeTypeA(header, app)) == WmbusPacketLen(9 + |app|, false);
  }

  lemma {:induction false} CutBlocks(before: seq<Byte>, app: seq<Byte>, n: nat)
    requires n < |EncodeBlocks(app)|
    ensures !TypeABlocks(before + EncodeBlocks(app)[..n], |before|, |app|).0
    decreases |app|
  {
    hide VerifyBlock, Crc, TypeABlocks, EncodeBlocks;
    var cut := EncodeBlocks(app)[..n];
    TypeABlocksStep(before + cut, |before|, |app|);
    EncodeBlocksStep(app);
    EncodeBlocksLength(app);
    if |app| > TYPE_A_BLOCK_LEN && n >= TYPE_A_BLOCK_LEN + CRC_LEN {
      var rest := app[TYPE_A_BLOCK_LEN..];
      var first := app[..TYPE_A_BLOCK_LEN] + CrcBytes(Crc(app[..TYPE_A_BLOCK_LEN]));
      var cutRest := EncodeBlocks(rest)[..n - |first|];
      assert cut == first + cutRest;
      CutBlocks(before + first, rest, n - |first|);
      assert before + cut == before + first + cutRest;
    }
  }

  /** A Type A frame cut anywhere in its data blocks decodes, but never validates. */
  lemma {:induction false} TypeACut(header: LinkHeader, app: seq<Byte>, n: nat)
    requires |app| <= 246 && 13 <= n < |EncodeTypeA(header, app)|
    ensures var cut := EncodeTypeA(header, app)[..n];
            Decode(cut).Ok? && !Decode(cut).value.crcOk
  {
    hide VerifyBlock, Crc, Link, EncodeBlocks, TypeABlocks;
    var raw := EncodeTypeA(header, app);
    TypeAParts(header, app);
    var cut := EncodeBlocks(app)[..n - 13];
    assert raw[..n] == raw[..13] + cut;
    CutBlocks(raw[..13], app, n - 13);
    EncodeBlocksStep(app);
    LinkCrc(raw[..n]);
  }

  /** In particular at the boundary two bytes short. */
  lemma {:induction false} TypeATruncated(header: LinkHeader, app: seq<Byte>)
    requires |app| <= 246 && |app| % 16 == 1
    ensures var raw := EncodeTypeA(header, app);
            && |raw| >= 15
            && Decode(raw[..|raw| - 2]).Ok? && !Decode(raw[..|raw| - 2]).value.crcOk
  {
    hide Crc, EncodeBlocks, Decode;
    TypeAParts(header, app);
    EncodeBlocksLength(app);
    TypeACut(header, app, |EncodeTypeA(header, app)| - 2);
  }

  /** The contents of any Type B frame, whatever its CRC and whatever follows. What follows is
      taken for a second block with a CRC of its own, whose data continues the first. */
  lemma {:induction false} TypeBContents(header: LinkHeader, app: seq<Byte>, crc: seq<Byte>, after: seq<Byte>)
    requires |app| <= 244 && |crc| == 2
    ensures var block := [Truncate(11 + |app|)] + header + app;
            var data := if |after| < 2 then [] else after[..|after| - 2];
            Decode([TYPE_B_SYNC] + block + crc + after)
            == Ok(Expected(TypeB, header, app + data)
                  .(crcOk := VerifyBlock(block, crc) && (NoSecondBlock(after) || SecondBlockValid(after))))
  {
    hide VerifyBlock, DecodeTypeB, Expected, NoSecondBlock, SecondBlockValid, Link;
    var block := [Truncate(11 + |app|)] + header + app;
    var n := |block|;
    TruncateSmall(11 + |app|);
    var raw := [TYPE_B_SYNC] + block + crc + after;
    assert raw[1] == block[0];
    assert raw[1..1 + n] == block && raw[1 + n..3 + n] == crc && raw[3 + n..] == after;
    assert raw[11..1 + n] == app && raw[2..11] == header;
    var data := if |after| < 2 then [] else after[..|after| - 2];
    SecondBlockDecides(raw, app, after);
    HeaderAt(raw, header, TypeB, app + data,
             VerifyBlock(block, crc) && (NoSecondBlock(after) || SecondBlockValid(after)));
  }

  /** Behind a correct frame the whole validates if and only if less than two bytes follow, or
      those bytes validate. */
  lemma {:induction false} TypeBThen(header: LinkHeader, app: seq<Byte>, after: seq<Byte>)
    requires |app| <= 244
    ensures var data := if |after| < 2 then [] else after[..|after| - 2];
            Decode(EncodeTypeB(header, app) + after)
            == Ok(Expected(TypeB, header, app + data)
                  .(crcOk := NoSecondBlock(after) || SecondBlockValid(after)))
  {
    hide VerifyBlock, Crc, Decode, Expected, NoSecondBlock, SecondBlockValid;
    var block := [Truncate(11 + |app|)] + header + app;
    EncodedBlockVerifies(block);
    TypeBContents(header, app, CrcBytes(Crc(block)), after);
  }

  lemma {:induction false} SecondBlockDecides(raw: seq<Byte>, app: seq<Byte>, after: seq<Byte>)
    requires var n := |app|;
             && |raw| == 13 + n + |after| && raw[0] == TYPE_B_SYNC && Number(raw[1]) == 11 + n
             && raw[11..11 + n] == app && raw[13 + n..] == after
    ensures var n := |app|;
            var data := if |after| < 2 then [] else after[..|after| - 2];
            DecodeTypeB(raw) == Ok(Link(raw, TypeB, app + data,
                                        && VerifyBlock(raw[1..11 + n], raw[11 + n..13 + n])
                                        && (NoSecondBlock(after) || SecondBlockValid(after))))
  {
    hide VerifyBlock, Link;
    var n := |app|;
    if |after| >= CRC_LEN {
      assert raw[13 + n..|raw| - CRC_LEN] == after[..|after| - CRC_LEN];
      assert raw[|raw| - CRC_LEN..] == after[|after| - CRC_LEN..];
    } else {
      assert app + [] == app;
    }
  }

  /** In particular a second block with its own CRC is part of the application data. */
  lemma {:induction false} TypeBTwoBlocks(header: LinkHeader, app: seq<Byte>, second: seq<Byte>)
    requires |app| <= 244
    ensures Decode(EncodeTypeB(header, app) + second + CrcBytes(Crc(second)))
         == Ok(Expected(TypeB, header, app + second))
  {
    hide VerifyBlock, Crc, Decode, EncodeTypeB, Expected;
    var after := second + CrcBytes(Crc(second));
    assert after[..|after| - 2] == second && after[|after| - 2..] == CrcBytes(Crc(second));
    EncodedBlockVerifies(second);
    TypeBThen(header, app, after);
    assert EncodeTypeB(header, app) + second + CrcBytes(Crc(second)) == EncodeTypeB(header, app) + after;
    ExpectedValid(TypeB, header, app + second);
  }

  lemma {:induction false} ExpectedValid(t: FrameType, header: LinkHeader, app: seq<Byte>)
    ensures Expected(t, header, app).crcOk
  {
  }

  lemma {:induction false} TypeBCrc(raw: seq<Byte>)
    requires |raw| >= 13 && Number(raw[1]) >= 1 && Number(raw[1]) + CRC_LEN <= |raw|
    ensures var end := Number(raw[1]);
            && DecodeTypeB(raw).Ok?
            && (DecodeTypeB(raw).value.crcOk <==>
                && VerifyBlock(raw[1..end], raw[end..end + CRC_LEN])
                && (end + 2 * CRC_LEN <= |raw| ==>
                      VerifyBlock(raw[end + CRC_LEN..|raw| - CRC_LEN], raw[|raw| - CRC_LEN..])))
  {
    hide VerifyBlock, Link;
    LinkKeepsCrc(raw);
  }

  predicate NoSecondBlock(after: seq<Byte>) { |after| < CRC_LEN }

  predicate SecondBlockValid(after: seq<Byte>) {
    |after| >= CRC_LEN && VerifyBlock(after[..|after| - CRC_LEN], after[|after| - CRC_LEN..])
  }

  lemma {:induction false} LinkKeepsCrc(raw: seq<Byte>)
    requires |raw| >= 1 + HEADER_LEN
    ensures forall t: FrameType, p: seq<Byte>, ok: bool :: Link(raw, t, p, ok).crcOk == ok
  {
  }

  /** A Type B frame that is not there to its end does not decode; the error says how much
      would be needed next. */
  lemma {:induction false} TypeBCut(header: LinkHeader, app: seq<Byte>, n: nat)
    requires |app| <= 244 && n < |EncodeTypeB(header, app)|
    ensures Decode(EncodeTypeB(header, app)[..n])
         == Err(BufferTooShort(if n < 2 then 2 else if n < 13 then 13 else 13 + |app|, n))
  {
    hide VerifyBlock, Crc, Link;
    TruncateSmall(11 + |app|);
    if n >= 2 {
      assert EncodeTypeB(header, app)[..n][1] == Truncate(11 + |app|);
    }
  }

  /** The other errors: a first byte that is no sync byte, and a Type B length byte of zero. A
      Type A frame with its header is never an error. */
  lemma {:induction false} Rejections(raw: seq<Byte>)
    requires |raw| >= 2
    ensures Decode(raw) == Err(InvalidHeader) <==> raw[0] != 0xCD && raw[0] != 0x3D
    ensures Decode(raw) == Err(InvalidLength(raw[1])) <==> |raw| >= 13 && raw[0] == 0x3D && raw[1] == 0
    ensures raw[0] == 0xCD ==>
              if |raw| < 13 then Decode(raw) == Err(BufferTooShort(13, |raw|)) else Decode(raw).Ok?
  {
    hide VerifyBlock, Link;
    TruncateNumber(raw[1]);
  }

  lemma {:induction false} LinkCrc(raw: seq<Byte>)
    requires |raw| >= 1 + HEADER_LEN + CRC_LEN && raw[0] == TYPE_A_SYNC
    requires Number(raw[1]) > 9 && !TypeABlocks(raw, 13, Number(raw[1]) - 9).0
    ensures Decode(raw) == Ok(DecodeTypeA(raw)) && !DecodeTypeA(raw).crcOk
  {
    hide VerifyBlock, TypeABlocks;
  }
}
