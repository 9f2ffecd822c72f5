/** An MSCP drive on a disk image (mscp_drive.cpp) and the range checks of
    DoDiskTransfer (mscp_server.cpp). */
module MscpDrive {
  import opened Words
  import opened StorageImage

  const BLOCK_SIZE := 512

  /** `blockNumber * GetBlockSize()` in 32-bit unsigned arithmetic. */
  function Offset(block: nat): nat { Unsigned32(block * BLOCK_SIZE) }

  /** The block of the image a block number leads to. */
  function Home(block: nat): nat { block % 0x80_0000 }

  lemma OffsetIsHome(block: nat)
    ensures Offset(block) == Home(block) * BLOCK_SIZE
    ensures block < 0x80_0000 <==> Home(block) == block
  {
    QuotientIs(block * BLOCK_SIZE, 0x1_0000_0000, block / 0x80_0000, Home(block) * BLOCK_SIZE);
  }

  class Drive {
    const image: BinFile
    const rct: array<Byte>

    constructor(image: BinFile, rctBlocks: nat)
      ensures this.image == image && fresh(rct) && rct.Length == rctBlocks * BLOCK_SIZE
      ensures forall i | 0 <= i < rct.Length :: rct[i] == 0
    {
      this.image := image;
      rct := new Byte[rctBlocks * BLOCK_SIZE](_ => 0);
    }

    /** image_clear_remaining_block_bytes */
    method ClearRemainingBlockBytes(position: nat, len: nat)
      requires position + len - |image.data| < 0x8000_0000
      modifies image
      ensures var end := position + len;
              var unused := BlockEnd(end, BLOCK_SIZE) - end;
              image.Content()
              == if unused > 0 then AfterWrite(old(image.Content()), end, Zeros(unused)) else old(image.Content())
    {
      var start := position + len;
      var end := (start + BLOCK_SIZE - 1) / BLOCK_SIZE * BLOCK_SIZE;
      RoundUp(start, BLOCK_SIZE);
      var unused := end - start;
      if unused > 0 {
        var zeros := new Byte[unused](_ => 0);
        image.Write(start, zeros);
        assert zeros[..] == Zeros(unused);
      }
    }

    method Write(block: nat, buffer: array<Byte>)
      requires Offset(block) - |image.data| < 0x8000_0000
      modifies image
      ensures image.Content() == File(Written(old(image.data), block, buffer[..]), false)
    {
      hide Offset, BlockEnd, WriteBytes;
      image.Write(Offset(block), buffer);
      ClearRemainingBlockBytes(Offset(block), buffer.Length);
    }

    method Read(block: nat, len: nat) returns (buffer: array<Byte>)
      requires len > 0
      modifies image`failed
      ensures fresh(buffer) && buffer[..] == Delivered(old(image.Content()), Offset(block), len)
      ensures image.Content() == AfterRead(old(image.Content()), Offset(block), len)
    {
      buffer := image.Read(Offset(block), len);
    }

    /** WriteRCTBlock */
    method WriteRct(block: nat, buffer: array<Byte>)
      requires (block + 1) * BLOCK_SIZE <= rct.Length && buffer.Length >= BLOCK_SIZE && buffer != rct
      modifies rct
      ensures forall i | 0 <= i < rct.Length ::
                rct[i] == if block * BLOCK_SIZE <= i < (block + 1) * BLOCK_SIZE
                          then buffer[i - block * BLOCK_SIZE] else old(rct[i])
    {
      for k := 0 to BLOCK_SIZE
        invariant forall i | 0 <= i < rct.Length ::
          rct[i] == if block * BLOCK_SIZE <= i < block * BLOCK_SIZE + k
                    then buffer[i - block * BLOCK_SIZE] else old(rct[i])
      {
        rct[block * BLOCK_SIZE + k] := buffer[k];
      }
    }

    /** ReadRCTBlock */
    method ReadRct(block: nat) returns (buffer: array<Byte>)
      requires (block + 1) * BLOCK_SIZE <= rct.Length
      ensures fresh(buffer) && buffer[..] == rct[block * BLOCK_SIZE..(block + 1) * BLOCK_SIZE]
    {
      buffer := new Byte[BLOCK_SIZE](i requires 0 <= i < BLOCK_SIZE reads this, rct => rct[block * BLOCK_SIZE + i]);
    }
  }

  function BlockAt(data: seq<Byte>, block: nat): seq<Byte> {
    ReadBytes(data, block * BLOCK_SIZE, BLOCK_SIZE)
  }

  /** The data area after a block write. */
  function Written(data: seq<Byte>, block: nat, buffer: seq<Byte>): seq<Byte> {
    WriteAndClear(data, Offset(block), buffer, BLOCK_SIZE)
  }

  /** Blocks that a write of `len` bytes takes. */
  function BlocksOf(len: nat): (n: nat)
    ensures n * BLOCK_SIZE - BLOCK_SIZE < len <= n * BLOCK_SIZE
  {
    (len + BLOCK_SIZE - 1) / BLOCK_SIZE
  }

  lemma WriteEnd(block: nat, len: nat)
    ensures BlockEnd(Offset(block) + len, BLOCK_SIZE) == (Home(block) + BlocksOf(len)) * BLOCK_SIZE
  {
    OffsetIsHome(block);
    hide Home;
  }

  /** Reading the bytes of a write returns them ... */
  lemma WrittenIsRead(data: seq<Byte>, block: nat, buffer: seq<Byte>)
    ensures ReadBytes(Written(data, block, buffer), Offset(block), |buffer|) == buffer
  {
    var read := ReadBytes(Written(data, block, buffer), Offset(block), |buffer|);
    forall i | 0 <= i < |buffer| ensures read[i] == buffer[i]
    {
      WriteAndClearMeaning(data, Offset(block), buffer, BLOCK_SIZE, Offset(block) + i);
    }
  }

  /** ... and the rest of its last block reads as zero. */
  lemma RestIsZero(data: seq<Byte>, block: nat, buffer: seq<Byte>)
    ensures var rest := BlocksOf(|buffer|) * BLOCK_SIZE - |buffer|;
            ReadBytes(Written(data, block, buffer), Offset(block) + |buffer|, rest) == Zeros(rest)
  {
    var rest := BlocksOf(|buffer|) * BLOCK_SIZE - |buffer|;
    WriteEnd(block, |buffer|);
    OffsetIsHome(block);
    var end := Offset(block) + |buffer|;
    var read := ReadBytes(Written(data, block, buffer), end, rest);
    hide Home, Offset;
    forall i | 0 <= i < rest ensures read[i] == 0 {
      WriteAndClearMeaning(data, Offset(block), buffer, BLOCK_SIZE, end + i);
    }
  }

  lemma ByteLands(data: seq<Byte>, block: nat, buffer: seq<Byte>, k: nat, i: nat)
    requires i < BLOCK_SIZE
    ensures ByteAt(Written(data, block, buffer), k * BLOCK_SIZE + i)
            == if Home(block) <= k < Home(block) + BlocksOf(|buffer|)
               then ByteAt(buffer, (k - Home(block)) * BLOCK_SIZE + i) else ByteAt(data, k * BLOCK_SIZE + i)
  {
    hide Home, Offset, BlockEnd, WriteAndClear, BlocksOf;
    WriteEnd(block, |buffer|);
    OffsetIsHome(block);
    WriteAndClearMeaning(data, Offset(block), buffer, BLOCK_SIZE, k * BLOCK_SIZE + i);
  }

  /** Exactly the blocks from Home(block) on change, to those of the buffer, the last
      one padded with zeros. */
  lemma WriteLands(data: seq<Byte>, block: nat, buffer: seq<Byte>, k: nat)
    ensures BlockAt(Written(data, block, buffer), k)
            == if Home(block) <= k < Home(block) + BlocksOf(|buffer|)
               then BlockAt(buffer, k - Home(block)) else BlockAt(data, k)
  {
    hide Home, Written;
    forall i | 0 <= i < BLOCK_SIZE
      ensures BlockAt(Written(data, block, buffer), k)[i]
              == if Home(block) <= k < Home(block) + BlocksOf(|buffer|)
                 then BlockAt(buffer, k - Home(block))[i] else BlockAt(data, k)[i]
    {
      ByteLands(data, block, buffer, k, i);
    }
  }

  /** A write of `len` bytes to a block leaves the blocks alone that it does not name,
      whatever it writes and the image holds. */
  ghost predicate KeepsOthers(block: nat, len: nat) {
    forall data: seq<Byte>, buffer: seq<Byte>, k: nat ::
      |buffer| == len && !(block <= k < block + BlocksOf(len))
      ==> BlockAt(Written(data, block, buffer), k) == BlockAt(data, k)
  }

  /** Below 2^23 it does; from there on it overwrites lower blocks. */
  lemma OtherBlocksKept(block: nat, len: nat)
    requires len < 0x1_0000_0000
    ensures KeepsOthers(block, len) <==> block < 0x80_0000 || len == 0
  {
    hide BlockAt, Written;
    OffsetIsHome(block);
    if block < 0x80_0000 || len == 0 {
      hide Home;
      forall data: seq<Byte>, buffer: seq<Byte>, k: nat
        | |buffer| == len && !(block <= k < block + BlocksOf(len))
        ensures BlockAt(Written(data, block, buffer), k) == BlockAt(data, k)
      {
        WriteLands(data, block, buffer, k);
      }
    } else {
      var buffer := seq<Byte>(len, _ => 1);
      FirstBlockChanges(block, buffer);
      assert |buffer| == len && !(block <= Home(block) < block + BlocksOf(len));
    }
  }

  lemma FirstBlockChanges(block: nat, buffer: seq<Byte>)
    requires buffer != [] && buffer[0] == 1
    ensures BlockAt(Written([], block, buffer), Home(block)) != BlockAt([], Home(block))
  {
    hide Written, Home;
    WriteLands([], block, buffer, Home(block));
    assert BlockAt(buffer, 0)[0] == ByteAt(buffer, 0);
    assert BlockAt([], Home(block))[0] == ByteAt([], Home(block) * BLOCK_SIZE);
  }

  // ---- the range checks of DoDiskTransfer ---------------------------------

  datatype Check = Accepted | InvalidLbn | InvalidByteCount

  /** The checks on LBN and byte count in 32-bit unsigned arithmetic; `blocks` and
      `rctBlocks` are the sizes of the data and the RCT area. */
  function CheckTransfer(lbn: nat, byteCount: nat, blocks: nat, rctBlocks: nat): Check {
    if lbn >= Unsigned32(blocks + rctBlocks) then InvalidLbn
    else if byteCount > Unsigned32(Unsigned32(Unsigned32(blocks + rctBlocks) - lbn) * BLOCK_SIZE) then InvalidByteCount
    else if lbn >= blocks && byteCount != BLOCK_SIZE then InvalidByteCount
    else Accepted
  }

  /** A transfer lies on the unit and, if it starts in the RCT, is one block long. */
  predicate OnUnit(lbn: nat, byteCount: nat, blocks: nat, rctBlocks: nat) {
    && lbn < blocks + rctBlocks
    && lbn * BLOCK_SIZE + byteCount <= (blocks + rctBlocks) * BLOCK_SIZE
    && (lbn >= blocks ==> byteCount == BLOCK_SIZE)
  }

  /** What is accepted lies on the unit; what lies on it is accepted unless 2^23 blocks
      or more follow its start and it is longer than what that number leaves modulo 2^23.
      A transfer that starts in the data area may run on past its end. */
  lemma AcceptedExactly(lbn: nat, byteCount: nat, blocks: nat, rctBlocks: nat)
    requires blocks + rctBlocks < 0x1_0000_0000
    ensures var room := blocks + rctBlocks - lbn;
            CheckTransfer(lbn, byteCount, blocks, rctBlocks) == Accepted <==>
              && OnUnit(lbn, byteCount, blocks, rctBlocks)
              && (room < 0x80_0000 || byteCount <= room % 0x80_0000 * BLOCK_SIZE)
  {
    if lbn < blocks + rctBlocks {
      OffsetIsHome(blocks + rctBlocks - lbn);
    }
  }

  /** So a transfer from block 0 that fits a unit of 2^23 blocks is refused. */
  lemma LargeUnitRefuses(byteCount: nat)
    requires 0 < byteCount < 0x1_0000_0000
    ensures CheckTransfer(0, byteCount, 0x80_0000, 0) == InvalidByteCount
    ensures OnUnit(0, byteCount, 0x80_0000, 0)
  {
  }

  /** A write that is accepted in the data area of the unit keeps the other blocks. */
  ghost predicate Safe(blocks: nat, rctBlocks: nat) {
    forall lbn: nat, byteCount: nat ::
      lbn < blocks && byteCount < 0x1_0000_0000 && CheckTransfer(lbn, byteCount, blocks, rctBlocks) == Accepted
      ==> KeepsOthers(lbn, byteCount)
  }

  /** That holds on every unit of up to 2^23 blocks, and on none that is larger. */
  lemma SafeUnits(blocks: nat, rctBlocks: nat)
    requires blocks + rctBlocks < 0x1_0000_0000 && rctBlocks < 0x1_0000
    ensures Safe(blocks, rctBlocks) <==> blocks <= 0x80_0000
  {
    hide KeepsOthers, CheckTransfer;
    if blocks <= 0x80_0000 {
      forall lbn: nat, byteCount: nat
        | lbn < blocks && byteCount < 0x1_0000_0000 && CheckTransfer(lbn, byteCount, blocks, rctBlocks) == Accepted
        ensures KeepsOthers(lbn, byteCount)
      {
        OtherBlocksKept(lbn, byteCount);
      }
    } else {
      AcceptedExactly(blocks - 1, BLOCK_SIZE, blocks, rctBlocks);
      OtherBlocksKept(blocks - 1, BLOCK_SIZE);
    }
  }

  /** GetBlockCount of a unit that takes its size from the image: a failed stream
      tells position -1, 64 bits wide. */
  function BlockCount(f: File): nat {
    if f.failed then Unsigned32(0xFFFF_FFFF_FFFF_FFFF / BLOCK_SIZE) else Unsigned32(|f.data| / BLOCK_SIZE)
  }

  /** On such a unit a read that runs past the end of the image, as an accepted one into
      the RCT area does, leaves a unit with as many blocks as the RCT has, less one, or
      without an RCT one of 2^32 - 1. */
  lemma UnitShrinks(f: File, lbn: nat, byteCount: nat, rctBlocks: nat)
    requires !f.failed && byteCount > 0 && rctBlocks < 0x1_0000
    ensures var g := AfterRead(f, Offset(lbn), byteCount);
            var left := if rctBlocks > 0 then rctBlocks - 1 else 0xFFFF_FFFF;
            && (g.failed <==> Home(lbn) * BLOCK_SIZE + byteCount > |f.data|)
            && (!g.failed ==> BlockCount(g) == BlockCount(f))
            && (g.failed ==> forall lbn': nat, n: nat ::
                  CheckTransfer(lbn', n, BlockCount(g), rctBlocks) == CheckTransfer(lbn', n, left, 0))
  {
    OffsetIsHome(lbn);
    var g := AfterRead(f, Offset(lbn), byteCount);
    if g.failed {
      assert BlockCount(g) == 0xFFFF_FFFF;
      forall lbn': nat, n: nat
        ensures CheckTransfer(lbn', n, 0xFFFF_FFFF, rctBlocks)
                == CheckTransfer(lbn', n, if rctBlocks > 0 then rctBlocks - 1 else 0xFFFF_FFFF, 0)
      {
        FailedSizeWraps(lbn', n, rctBlocks);
      }
    }
  }

  lemma FailedSizeWraps(lbn: nat, byteCount: nat, rctBlocks: nat)
    requires rctBlocks < 0x1_0000
    ensures CheckTransfer(lbn, byteCount, 0xFFFF_FFFF, rctBlocks)
            == CheckTransfer(lbn, byteCount, if rctBlocks > 0 then rctBlocks - 1 else 0xFFFF_FFFF, 0)
  {
    if rctBlocks > 0 {
      assert Unsigned32(0xFFFF_FFFF + rctBlocks) == rctBlocks - 1;
    }
  }

  // ---- the gap before a block ---------------------------------------------

  /** Every write that the checks accept in the data area comes to an end, on a file
      with this content. */
  ghost predicate WritesEnd(data: seq<Byte>, blocks: nat, rctBlocks: nat) {
    forall lbn: nat, byteCount: nat ::
      0 < byteCount && lbn < blocks && CheckTransfer(lbn, byteCount, blocks, rctBlocks) == Accepted
      ==> LoopEnds(Offset(lbn) - |data|)
  }

  /** On a new image that is so exactly for data areas of up to 2^31 bytes ... */
  lemma WritesEndExactly(blocks: nat, rctBlocks: nat)
    requires blocks + rctBlocks < 0x1_0000_0000 && rctBlocks < 0x1_0000
    ensures WritesEnd([], blocks, rctBlocks) <==> blocks * BLOCK_SIZE <= 0x8000_0000
  {
    hide LoopEnds, CheckTransfer;
    if blocks * BLOCK_SIZE <= 0x8000_0000 {
      SmallUnitsEnd([], blocks, rctBlocks);
    } else {
      var lbn := if (blocks + rctBlocks) % 0x80_0000 == 0x40_0000 then 0x40_0001 else 0x40_0000;
      AcceptedExactly(lbn, BLOCK_SIZE, blocks, rctBlocks);
      OffsetIsHome(lbn);
      GapCloses(Offset(lbn));
    }
  }

  /** ... and up to that size on every image ... */
  lemma SmallUnitsEnd(data: seq<Byte>, blocks: nat, rctBlocks: nat)
    requires blocks * BLOCK_SIZE <= 0x8000_0000
    ensures WritesEnd(data, blocks, rctBlocks)
  {
    hide LoopEnds, CheckTransfer;
    forall lbn: nat | lbn < blocks ensures LoopEnds(Offset(lbn) - |data|) {
      OffsetIsHome(lbn);
      GapCloses(Offset(lbn) - |data|);
    }
  }

  /** ... and of any size on units that take their size from their image, but for one
      without an RCT whose stream has failed and whose file is too short. */
  lemma ImageSizedEnd(f: File, rctBlocks: nat)
    requires rctBlocks < 0x1_0000
    ensures WritesEnd(f.data, BlockCount(f), rctBlocks)
            <==> !f.failed || rctBlocks > 0 || |f.data| > 0x8000_0000 - 2 * BLOCK_SIZE
  {
    hide LoopEnds;
    if f.failed && rctBlocks == 0 {
      FailedUnitEnds(f.data);
    } else {
      forall lbn: nat, byteCount: nat
        | 0 < byteCount && lbn < BlockCount(f) && CheckTransfer(lbn, byteCount, BlockCount(f), rctBlocks) == Accepted
        ensures LoopEnds(Offset(lbn) - |f.data|)
      {
        OffsetIsHome(lbn);
        if f.failed {
          FailedSizeWraps(lbn, byteCount, rctBlocks);
        }
        GapCloses(Offset(lbn) - |f.data|);
      }
    }
  }

  lemma FailedUnitEnds(data: seq<Byte>)
    ensures WritesEnd(data, 0xFFFF_FFFF, 0) <==> |data| > 0x8000_0000 - 2 * BLOCK_SIZE
  {
    hide LoopEnds, CheckTransfer;
    var last := 0x7F_FFFE;
    AcceptedExactly(last, BLOCK_SIZE, 0xFFFF_FFFF, 0);
    OffsetIsHome(last);
    GapCloses(Offset(last) - |data|);
    if |data| > 0x8000_0000 - 2 * BLOCK_SIZE {
      forall lbn: nat, byteCount: nat
        | 0 < byteCount && lbn < 0xFFFF_FFFF && CheckTransfer(lbn, byteCount, 0xFFFF_FFFF, 0) == Accepted
        ensures LoopEnds(Offset(lbn) - |data|)
      {
        AcceptedExactly(lbn, byteCount, 0xFFFF_FFFF, 0);
        OffsetIsHome(lbn);
        GapCloses(Offset(lbn) - |data|);
      }
    }
  }

  lemma OneBlock(buffer: seq<Byte>)
    requires |buffer| == BLOCK_SIZE
    ensures BlocksOf(|buffer|) == 1 && BlockAt(buffer, 0) == buffer
  {
    forall i | 0 <= i < BLOCK_SIZE ensures BlockAt(buffer, 0)[i] == buffer[i] {
      assert BlockAt(buffer, 0)[i] == ByteAt(buffer, i);
    }
  }

  /** On a unit of 2^23 + 10 blocks, a write of block 2^23 changes block 0 instead. */
  lemma LowBlockOverwritten(data: seq<Byte>, buffer: seq<Byte>)
    requires |buffer| == BLOCK_SIZE
    ensures CheckTransfer(0x80_0000, BLOCK_SIZE, 0x80_000A, 0) == Accepted
    ensures BlockAt(Written(data, 0x80_0000, buffer), 0) == buffer
    ensures BlockAt(Written(data, 0x80_0000, buffer), 0x80_0000) == BlockAt(data, 0x80_0000)
  {
    hide Written, BlockAt;
    OneBlock(buffer);
    WriteLands(data, 0x80_0000, buffer, 0);
    WriteLands(data, 0x80_0000, buffer, 0x80_0000);
  }
}
