/** Splitting a payload into 16-byte blocks of 14 data bytes and a CRC (src/wmbus/block.rs).

    Logging and the per-device error counters are not part of the model. */
module Blocks {
  import opened Casts
  import opened Bytes
  import opened WmbusCrc
  import opened ErrorDetection

  const BLOCK_SIZE := 16
  const BLOCK_DATA_SIZE := 14

  datatype BlockInfo = BlockInfo(
    index: nat,
    rawData: seq<Byte>,
    data: seq<Byte>,
    crcReceived: bv16,
    crcCalculated: bv16,
    crcValid: bool)

  /** The vendor's answer for a block whose CRC fails:
      (block index, number of blocks, expected, received). */
  type Tolerance = (nat, nat, bv16, bv16) -> bool

  // ---------------------------------------------------------------- one block

  function FullBlock(index: nat, raw: seq<Byte>): BlockInfo
    requires |raw| == BLOCK_SIZE
  {
    var received := ReadCrcBe(raw[BLOCK_DATA_SIZE..]);
    var calculated := Crc(raw[..BLOCK_DATA_SIZE]);
    BlockInfo(index, raw, raw[..BLOCK_DATA_SIZE], received, calculated, received == calculated)
  }

  function PartialBlock(index: nat, raw: seq<Byte>): BlockInfo {
    BlockInfo(index, raw, raw, 0, 0, false)
  }

  function BlockOf(index: nat, raw: seq<Byte>): BlockInfo
    requires |raw| <= BLOCK_SIZE
  {
    if |raw| < BLOCK_SIZE then PartialBlock(index, raw) else FullBlock(index, raw)
  }

  /** The length of the next block of a non-empty rest. */
  function NextLength(rest: seq<Byte>): nat {
    if BLOCK_SIZE < |rest| then BLOCK_SIZE else |rest|
  }

  function BlocksFrom(index: nat, rest: seq<Byte>): seq<BlockInfo>
    decreases |rest|
  {
    if rest == [] then []
    else [BlockOf(index, rest[..NextLength(rest)])] + BlocksFrom(index + 1, rest[NextLength(rest)..])
  }

  function BlocksOf(payload: seq<Byte>): seq<BlockInfo> {
    BlocksFrom(0, payload)
  }

  lemma {:induction false} TakeBlock(done: seq<BlockInfo>, payload: seq<Byte>, offset: nat, end: nat)
    requires offset < |payload|
    requires end == offset + NextLength(payload[offset..])
    ensures offset < end <= |payload| && |payload[offset..end]| <= BLOCK_SIZE
    ensures done + BlocksFrom(|done|, payload[offset..])
         == done + [BlockOf(|done|, payload[offset..end])] + BlocksFrom(|done| + 1, payload[end..])
  {
    var rest := payload[offset..];
    assert payload[offset..end] == rest[..NextLength(rest)];
    assert payload[end..] == rest[NextLength(rest)..];
  }

  // ---------------------------------------------------------------- the loops

  method VerifyBlocks(payload: seq<Byte>, encrypted: bool) returns (blocks: seq<BlockInfo>)
    ensures blocks == BlocksOf(payload)
  {
    hide Crc, ReadCrcBe;
    blocks := [];
    var offset := 0;
    while offset < |payload|
      invariant 0 <= offset <= |payload|
      invariant blocks + BlocksFrom(|blocks|, payload[offset..]) == BlocksOf(payload)
      decreases |payload| - offset
    {
      var remaining := |payload| - offset;
      var blockEnd := offset + if BLOCK_SIZE < remaining then BLOCK_SIZE else remaining;
      var blockData := payload[offset..blockEnd];
      TakeBlock(blocks, payload, offset, blockEnd);
      if |blockData| < BLOCK_SIZE {
        blocks := blocks + [PartialBlock(|blocks|, blockData)];
        assert payload[blockEnd..] == [];
        break;
      }
      var data := blockData[..BLOCK_DATA_SIZE];
      var crcReceived := ReadCrcBe(blockData[BLOCK_DATA_SIZE..]);
      var crcCalculated := CalculateWmbusCrc(data);
      var crcValid := crcReceived == crcCalculated;
      blocks := blocks + [BlockInfo(|blocks|, blockData, data, crcReceived, crcCalculated, crcValid)];
      offset := blockEnd;
    }
  }

  /** What vendor tolerance does to one block. */
  function Tolerated(b: BlockInfo, total: nat, encrypted: bool, vendor: Tolerance): BlockInfo {
    if |b.rawData| == BLOCK_SIZE && !b.crcValid && !encrypted
       && vendor(b.index, total, b.crcCalculated, b.crcReceived)
    then b.(crcValid := true)
    else b
  }

  function AllTolerated(blocks: seq<BlockInfo>, total: nat, encrypted: bool, vendor: Tolerance): (r: seq<BlockInfo>)
    ensures |r| == |blocks|
  {
    seq(|blocks|, k requires 0 <= k < |blocks| => Tolerated(blocks[k], total, encrypted, vendor))
  }

  function CeilingBlocks(n: nat): nat {
    (n + BLOCK_SIZE - 1) / BLOCK_SIZE
  }

  /** The separately written vendor-aware loop agrees with the plain one block by block, except
      that a failing full block may be marked valid. */
  method VerifyBlocksWithVendor(payload: seq<Byte>, encrypted: bool, vendor: Tolerance)
    returns (blocks: seq<BlockInfo>)
    ensures blocks == AllTolerated(BlocksOf(payload), CeilingBlocks(|payload|), encrypted, vendor)
  {
    hide Crc, ReadCrcBe;
    ghost var plain: seq<BlockInfo> := [];
    var total := CeilingBlocks(|payload|);
    blocks := [];
    var offset := 0;
    while offset < |payload|
      invariant 0 <= offset <= |payload|
      invariant plain + BlocksFrom(|plain|, payload[offset..]) == BlocksOf(payload)
      invariant blocks == AllTolerated(plain, total, encrypted, vendor)
      decreases |payload| - offset
    {
      var remaining := |payload| - offset;
      var blockEnd := offset + if BLOCK_SIZE < remaining then BLOCK_SIZE else remaining;
      var blockData := payload[offset..blockEnd];
      TakeBlock(plain, payload, offset, blockEnd);
      ghost var block := BlockOf(|plain|, blockData);
      if |blockData| < BLOCK_SIZE {
        TolerateOneMore(plain, block, total, encrypted, vendor);
        plain := plain + [block];
        blocks := blocks + [PartialBlock(|blocks|, blockData)];
        assert payload[blockEnd..] == [];
        break;
      }
      var data := blockData[..BLOCK_DATA_SIZE];
      var crcReceived := ReadCrcBe(blockData[BLOCK_DATA_SIZE..]);
      var crcCalculated := CalculateWmbusCrc(data);
      var crcValid := crcReceived == crcCalculated;
      if !crcValid && !encrypted {
        if vendor(|blocks|, total, crcCalculated, crcReceived) {
          crcValid := true;
        }
      }
      TolerateOneMore(plain, block, total, encrypted, vendor);
      plain := plain + [block];
      blocks := blocks + [BlockInfo(|blocks|, blockData, data, crcReceived, crcCalculated, crcValid)];
      offset := blockEnd;
    }
  }

  lemma {:induction false} TolerateOneMore(blocks: seq<BlockInfo>, b: BlockInfo, total: nat, encrypted: bool,
                                           vendor: Tolerance)
    ensures AllTolerated(blocks + [b], total, encrypted, vendor)
         == AllTolerated(blocks, total, encrypted, vendor) + [Tolerated(b, total, encrypted, vendor)]
  {
  }

  /** The concatenated data portions. */
  function DataOf(blocks: seq<BlockInfo>): seq<Byte> {
    if blocks == [] then [] else blocks[0].data + DataOf(blocks[1..])
  }

  method ExtractBlockData(blocks: seq<BlockInfo>) returns (data: seq<Byte>)
    ensures data == DataOf(blocks)
  {
    data := [];
    for i := 0 to |blocks|
      invariant data + DataOf(blocks[i..]) == DataOf(blocks)
    {
      data := data + blocks[i].data;
    }
  }

  method ProcessTypeABlocks(payload: seq<Byte>, encrypted: bool) returns (data: seq<Byte>)
    ensures data == DataOf(BlocksOf(payload))
  {
    var blocks := VerifyBlocks(payload, encrypted);
    data := ExtractBlockData(blocks);
  }

  // ---------------------------------------------------------------- nothing is lost

  function RawOf(blocks: seq<BlockInfo>): seq<Byte> {
    if blocks == [] then [] else blocks[0].rawData + RawOf(blocks[1..])
  }

  /** The blocks' raw bytes concatenate back to the payload. */
  lemma {:induction false} RawBytesRestorePayload(index: nat, payload: seq<Byte>)
    ensures RawOf(BlocksFrom(index, payload)) == payload
    decreases |payload|
  {
    if payload != [] {
      RawBytesRestorePayload(index + 1, payload[NextLength(payload)..]);
    }
  }

  // ---------------------------------------------------------------- encoding

  /** `data` cut into 14-byte pieces, each followed by its CRC. */
  function Protect(data: seq<Byte>): seq<Byte> {
    if data == [] then []
    else
      var n := if |data| < BLOCK_DATA_SIZE then |data| else BLOCK_DATA_SIZE;
      data[..n] + CrcBytes(Crc(data[..n])) + Protect(data[n..])
  }

  lemma {:induction false} ProtectStep(index: nat, data: seq<Byte>)
    requires |data| >= BLOCK_DATA_SIZE
    ensures BlocksFrom(index, Protect(data)) != []
    ensures BlocksFrom(index, Protect(data))[0].crcValid
    ensures BlocksFrom(index, Protect(data))[0].data == data[..BLOCK_DATA_SIZE]
    ensures BlocksFrom(index, Protect(data))[1..] == BlocksFrom(index + 1, Protect(data[BLOCK_DATA_SIZE..]))
  {
    var p := Protect(data);
    var piece, rest := data[..BLOCK_DATA_SIZE], data[BLOCK_DATA_SIZE..];
    var first := piece + CrcBytes(Crc(piece));
    assert p[..BLOCK_SIZE] == first && p[BLOCK_SIZE..] == Protect(rest);
    assert NextLength(p) == BLOCK_SIZE;
    assert first[..BLOCK_DATA_SIZE] == piece && first[BLOCK_DATA_SIZE..] == CrcBytes(Crc(piece));
    JoinHighLow(Crc(piece));
  }

  /** Verifying and extracting protected data gives it back exactly when its last piece is not
      short: the CRC of a short piece would be taken for data. Then every block is valid. */
  lemma {:induction false} ProtectRoundTrip(index: nat, data: seq<Byte>)
    ensures DataOf(BlocksFrom(index, Protect(data))) == data <==> |data| % BLOCK_DATA_SIZE == 0
    ensures |data| % BLOCK_DATA_SIZE == 0 ==>
              forall b | b in BlocksFrom(index, Protect(data)) :: b.crcValid
    decreases |data|
  {
    hide Crc, BlocksFrom, Protect, DataOf;
    if data == [] {
      NothingProtected(index);
    } else if |data| < BLOCK_DATA_SIZE {
      ShortPieceKeepsCrc(index, data);
    } else {
      var rest := data[BLOCK_DATA_SIZE..];
      var blocks, tail := BlocksFrom(index, Protect(data)), BlocksFrom(index + 1, Protect(rest));
      ProtectStep(index, data);
      ProtectRoundTrip(index + 1, rest);
      assert |rest| % BLOCK_DATA_SIZE == |data| % BLOCK_DATA_SIZE;
      DataOfStep(blocks);
      assert DataOf(blocks)[BLOCK_DATA_SIZE..] == DataOf(tail);
      forall b | b in blocks && |data| % BLOCK_DATA_SIZE == 0
        ensures b.crcValid
      {
        assert b == blocks[0] || b in blocks[1..];
      }
    }
  }

  lemma {:induction false} NothingProtected(index: nat)
    ensures Protect([]) == [] && BlocksFrom(index, []) == [] && DataOf([]) == []
  {
  }

  lemma {:induction false} DataOfStep(blocks: seq<BlockInfo>)
    requires blocks != []
    ensures DataOf(blocks) == blocks[0].data + DataOf(blocks[1..])
  {
  }

  lemma {:induction false} ShortPieceKeepsCrc(index: nat, data: seq<Byte>)
    requires 0 < |data| < BLOCK_DATA_SIZE
    ensures |DataOf(BlocksFrom(index, Protect(data)))| == |data| + 2
  {
    var p := Protect(data);
    assert data[..|data|] == data;
    assert Protect(data[|data|..]) == [];
    assert p == data + CrcBytes(Crc(data));
    assert p[..|p|] == p && p[|p|..] == [];
    assert BlocksFrom(index, p) == [PartialBlock(index, p)];
  }

  // ---------------------------------------------------------------- bursts

  /** The bytes of block `k`. */
  function Piece(payload: seq<Byte>, k: nat): (piece: seq<Byte>)
    requires BLOCK_SIZE * k < |payload|
    ensures 0 < |piece| <= BLOCK_SIZE
  {
    payload[BLOCK_SIZE * k..][..NextLength(payload[BLOCK_SIZE * k..])]
  }

  lemma {:induction false} BlockAt(index: nat, payload: seq<Byte>, k: nat)
    requires BLOCK_SIZE * k < |payload|
    ensures k < |BlocksFrom(index, payload)|
    ensures BlocksFrom(index, payload)[k] == BlockOf(index + k, Piece(payload, k))
    decreases k
  {
    hide BlockOf;
    if k > 0 {
      var rest := payload[BLOCK_SIZE..];
      assert payload[NextLength(payload)..] == rest;
      BlockAt(index + 1, rest, k - 1);
      assert rest[BLOCK_SIZE * (k - 1)..] == payload[BLOCK_SIZE * k..];
    }
  }

  lemma {:induction false} BlockCount(index: nat, payload: seq<Byte>)
    ensures |BlocksFrom(index, payload)| == (|payload| + 15) / 16
    decreases |payload|
  {
    hide BlockOf;
    if payload != [] {
      BlockCount(index + 1, payload[NextLength(payload)..]);
    }
  }

  /** Every block in plain terms: the next 16 bytes or what is left of them; of 16 bytes the first
      14 are data, valid if and only if the other two are their CRC; fewer are data and never
      valid. Tolerance only ever validates a full failing block of an unencrypted payload whose
      vendor agrees. */
  lemma {:induction false} BlocksAre(payload: seq<Byte>, encrypted: bool, vendor: Tolerance, k: nat)
    requires 16 * k < |payload|
    ensures |BlocksOf(payload)| == (|payload| + 15) / 16 && k < |BlocksOf(payload)|
    ensures var raw := if |payload| < 16 * (k + 1) then payload[16 * k..] else payload[16 * k..16 * (k + 1)];
            var block, total := BlocksOf(payload)[k], (|payload| + 15) / 16;
            && block == (if |raw| < 16 then BlockInfo(k, raw, raw, 0, 0, false)
                         else BlockInfo(k, raw, raw[..14], Join(raw[14], raw[15]), Crc(raw[..14]), VerifyCrcBe(raw)))
            && AllTolerated(BlocksOf(payload), CeilingBlocks(|payload|), encrypted, vendor)[k]
               == block.(crcValid := block.crcValid
                                  || (|raw| == 16 && !encrypted
                                      && vendor(k, total, block.crcCalculated, block.crcReceived)))
  {
    hide BlocksFrom, Crc;
    BlockCount(0, payload);
    BlockAt(0, payload, k);
    var rest := payload[16 * k..];
    assert rest[..NextLength(rest)] == if |payload| < 16 * (k + 1) then rest else payload[16 * k..16 * (k + 1)];
  }

  lemma {:induction false} PieceBits(payload: seq<Byte>, k: nat, i: nat)
    requires BLOCK_SIZE * k < |payload| && i < 8 * |Piece(payload, k)|
    ensures 8 * BLOCK_SIZE * k + i < 8 * |payload|
    ensures Bits(Piece(payload, k))[i] == Bits(payload)[8 * BLOCK_SIZE * k + i]
  {
    var before, rest := payload[..BLOCK_SIZE * k], payload[BLOCK_SIZE * k..];
    var n := NextLength(rest);
    assert payload == before + rest && rest == rest[..n] + rest[n..];
    BitsConcat(before, rest);
    BitsConcat(rest[..n], rest[n..]);
  }

  /** A burst of at most 16 bits in a payload of valid full blocks invalidates exactly the full
      blocks it touches, even when it straddles two of them. */
  lemma {:induction false} BurstInvalidatesTouchedBlocks(payload: seq<Byte>, payload': seq<Byte>, p: int, k: nat)
    requires DifferOnlyInBurst(payload, payload', p)
    requires BLOCK_SIZE * (k + 1) <= |payload|
    requires k < |BlocksOf(payload)| && BlocksOf(payload)[k].crcValid
    ensures k < |BlocksOf(payload')|
    ensures BlocksOf(payload')[k].crcValid <==> BlocksOf(payload')[k].rawData == BlocksOf(payload)[k].rawData
  {
    hide BlocksFrom, Crc, Bits;
    BlockAt(0, payload, k);
    BlockAt(0, payload', k);
    var a, b := Piece(payload, k), Piece(payload', k);
    var q := p - 8 * BLOCK_SIZE * k;
    forall i | 0 <= i < 8 * |a| && !(q <= i < q + 16)
      ensures Bits(a)[i] == Bits(b)[i]
    {
      PieceBits(payload, k, i);
      PieceBits(payload', k, i);
    }
    if a != b {
      BurstDetected(a, b, q);
    }
  }
}
