/** Disk images: the growing binary file (storageimage.cpp), the clearing of
    partly written blocks (storagedrive.cpp) and the disk geometry
    (storagedrive_geometry.hpp). */
module StorageImage {
  import opened Words

  // ---- a file as an endless, zero-filled disk -----------------------------

  function Zeros(n: nat): (z: seq<Byte>)
    ensures |z| == n && forall i | 0 <= i < n :: z[i] == 0
  {
    seq<Byte>(n, _ => 0)
  }

  /** The byte at a position of the endless disk a file stands for. */
  function ByteAt(data: seq<Byte>, position: nat): Byte {
    if position < |data| then data[position] else 0
  }

  function ReadBytes(data: seq<Byte>, position: nat, len: nat): (r: seq<Byte>)
    ensures |r| == len
  {
    seq<Byte>(len, i requires i >= 0 => ByteAt(data, position + i))
  }

  /** The file extended with zeros to at least `size` bytes. */
  function Filled(data: seq<Byte>, size: nat): (r: seq<Byte>)
    ensures |r| >= size
  {
    if |data| < size then data + Zeros(size - |data|) else data
  }

  function WriteBytes(data: seq<Byte>, position: nat, buffer: seq<Byte>): (r: seq<Byte>)
    ensures |r| >= position + |buffer|
  {
    var d := Filled(data, position);
    d[..position] + buffer + (if position + |buffer| < |d| then d[position + |buffer|..] else [])
  }

  /** A write sets its bytes and no others, wherever the file ended before. */
  lemma WriteMeaning(data: seq<Byte>, position: nat, buffer: seq<Byte>, q: nat)
    ensures ByteAt(WriteBytes(data, position, buffer), q)
            == if position <= q < position + |buffer| then buffer[q - position] else ByteAt(data, q)
  {
    var d := Filled(data, position);
    assert ByteAt(d, q) == ByteAt(data, q);
  }

  lemma ReadAfterWrite(data: seq<Byte>, position: nat, buffer: seq<Byte>, p: nat, len: nat)
    ensures forall i | 0 <= i < len ::
              ReadBytes(WriteBytes(data, position, buffer), p, len)[i]
              == if position <= p + i < position + |buffer| then buffer[p + i - position] else ByteAt(data, p + i)
    ensures ReadBytes(WriteBytes(data, position, buffer), position, |buffer|) == buffer
    ensures p + len <= position || position + |buffer| <= p ==>
              ReadBytes(WriteBytes(data, position, buffer), p, len) == ReadBytes(data, p, len)
  {
    forall q: nat
      ensures ByteAt(WriteBytes(data, position, buffer), q)
              == if position <= q < position + |buffer| then buffer[q - position] else ByteAt(data, q)
    {
      WriteMeaning(data, position, buffer, q);
    }
  }

  // ---- the stream ---------------------------------------------------------

  /** A file with its stream: a read past the end of the file sets the fail bit,
      and nothing is read any more until a write clears it. */
  datatype File = File(data: seq<Byte>, failed: bool)

  /** What a read delivers ... */
  function Delivered(f: File, position: nat, len: nat): (r: seq<Byte>)
    ensures |r| == len
  {
    if f.failed then Zeros(len) else ReadBytes(f.data, position, len)
  }

  /** ... and leaves behind. */
  function AfterRead(f: File, position: nat, len: nat): File {
    f.(failed := f.failed || Short(f.data, position, len))
  }

  predicate Short(data: seq<Byte>, position: nat, len: nat) { len > 0 && position + len > |data| }

  function AfterWrite(f: File, position: nat, buffer: seq<Byte>): File {
    File(WriteBytes(f.data, position, buffer), false)
  }

  datatype Operation = Read(position: nat, len: nat) | Write(position: nat, buffer: seq<Byte>)

  /** What a run of operations reads from the file ... */
  function FileRun(f: File, ops: seq<Operation>): seq<seq<Byte>>
    decreases |ops|
  {
    if ops == [] then []
    else match ops[0]
      case Read(p, len) => [Delivered(f, p, len)] + FileRun(AfterRead(f, p, len), ops[1..])
      case Write(p, buffer) => FileRun(AfterWrite(f, p, buffer), ops[1..])
  }

  function DiskBytes(disk: nat -> Byte, position: nat, len: nat): seq<Byte> {
    seq<Byte>(len, i requires i >= 0 => disk(position + i))
  }

  function Updated(disk: nat -> Byte, position: nat, buffer: seq<Byte>): nat -> Byte {
    (q: nat) => if position <= q < position + |buffer| then buffer[q - position] else disk(q)
  }

  /** ... and what it reads from a disk that has a byte at every position. */
  function DiskRun(disk: nat -> Byte, ops: seq<Operation>): seq<seq<Byte>>
    decreases |ops|
  {
    if ops == [] then []
    else match ops[0]
      case Read(p, len) => [DiskBytes(disk, p, len)] + DiskRun(disk, ops[1..])
      case Write(p, buffer) => DiskRun(Updated(disk, p, buffer), ops[1..])
  }

  /** The file content before operation k. */
  function DataAt(data: seq<Byte>, ops: seq<Operation>, k: nat): seq<Byte>
    requires k <= |ops|
    decreases k
  {
    if k == 0 then data
    else DataAt(if ops[0].Write? then WriteBytes(data, ops[0].position, ops[0].buffer) else data, ops[1..], k - 1)
  }

  /** Operation j runs past the end of the file. */
  predicate RunsShort(data: seq<Byte>, ops: seq<Operation>, j: nat)
    requires j < |ops|
  {
    ops[j].Read? && Short(DataAt(data, ops, j), ops[j].position, ops[j].len)
  }

  /** Operation k reads something that is not zero. */
  predicate ReadsData(data: seq<Byte>, ops: seq<Operation>, k: nat)
    requires k < |ops|
  {
    ops[k].Read? && ReadBytes(DataAt(data, ops, k), ops[k].position, ops[k].len) != Zeros(ops[k].len)
  }

  /** No write comes after operation j and before operation k. */
  predicate OnlyReads(ops: seq<Operation>, from: nat, to: nat)
    requires to <= |ops|
  {
    forall i | from <= i < to :: ops[i].Read?
  }

  /** A read of data that finds the stream failed. */
  ghost predicate LostRead(f: File, ops: seq<Operation>) {
    || (f.failed && exists k: nat :: k < |ops| && OnlyReads(ops, 0, k) && ReadsData(f.data, ops, k))
    || (exists j: nat, k: nat :: j < k < |ops| && OnlyReads(ops, j, k) && RunsShort(f.data, ops, j)
                                 && ReadsData(f.data, ops, k))
  }

  /** The same, operation by operation. */
  predicate Loses(f: File, ops: seq<Operation>)
    decreases |ops|
  {
    if ops == [] then false
    else match ops[0]
      case Read(p, len) =>
        (f.failed && ReadBytes(f.data, p, len) != Zeros(len)) || Loses(AfterRead(f, p, len), ops[1..])
      case Write(p, buffer) => Loses(AfterWrite(f, p, buffer), ops[1..])
  }

  lemma {:induction false} SameUnlessLoses(f: File, disk: nat -> Byte, ops: seq<Operation>)
    requires forall q: nat :: disk(q) == ByteAt(f.data, q)
    ensures FileRun(f, ops) == DiskRun(disk, ops) <==> !Loses(f, ops)
    decreases |ops|
  {
    if ops != [] {
      match ops[0]
      case Read(p, len) =>
        assert ReadBytes(f.data, p, len) == DiskBytes(disk, p, len);
        SameUnlessLoses(AfterRead(f, p, len), disk, ops[1..]);
        FirstAndRest(Delivered(f, p, len), FileRun(AfterRead(f, p, len), ops[1..]),
                     DiskBytes(disk, p, len), DiskRun(disk, ops[1..]));
      case Write(p, buffer) =>
        var disk' := Updated(disk, p, buffer);
        forall q: nat ensures disk'(q) == ByteAt(WriteBytes(f.data, p, buffer), q) {
          WriteMeaning(f.data, p, buffer, q);
        }
        SameUnlessLoses(AfterWrite(f, p, buffer), disk', ops[1..]);
    }
  }

  lemma FirstAndRest<T>(a: T, x: seq<T>, b: T, y: seq<T>)
    ensures [a] + x == [b] + y <==> a == b && x == y
  {
    assert ([a] + x)[0] == a && ([a] + x)[1..] == x;
    assert ([b] + y)[0] == b && ([b] + y)[1..] == y;
  }

  function Next(f: File, op: Operation): File {
    match op
    case Read(p, len) => AfterRead(f, p, len)
    case Write(p, buffer) => AfterWrite(f, p, buffer)
  }

  /** Every statement about a later operation is one about the rest of the run. */
  lemma Shift(f: File, ops: seq<Operation>, k: nat)
    requires 0 < k < |ops|
    ensures ReadsData(f.data, ops, k) <==> ReadsData(Next(f, ops[0]).data, ops[1..], k - 1)
    ensures RunsShort(f.data, ops, k) <==> RunsShort(Next(f, ops[0]).data, ops[1..], k - 1)
    ensures OnlyReads(ops, 0, k) <==> ops[0].Read? && OnlyReads(ops[1..], 0, k - 1)
    ensures forall j | 0 < j <= k :: OnlyReads(ops, j, k) <==> OnlyReads(ops[1..], j - 1, k - 1)
  {
    var rest := ops[1..];
    assert forall i | 0 < i < |ops| :: ops[i] == rest[i - 1];
    if ops[0].Read? && OnlyReads(rest, 0, k - 1) {
      assert forall i | 0 < i < k :: ops[i] == rest[i - 1];
    }
    forall j | 0 < j <= k ensures OnlyReads(ops, j, k) <==> OnlyReads(rest, j - 1, k - 1) {
      assert forall i | j <= i < k :: ops[i] == rest[i - 1];
      assert forall i | j - 1 <= i < k - 1 :: rest[i] == ops[i + 1];
    }
    if OnlyReads(ops, 0, k) {
      assert forall i | 0 <= i < k - 1 :: rest[i] == ops[i + 1];
    }
  }

  lemma {:induction false} LosesIsLostRead(f: File, ops: seq<Operation>)
    ensures Loses(f, ops) ==> LostRead(f, ops)
    decreases |ops|
  {
    if ops != [] && Loses(f, ops) {
      if ops[0].Read? && f.failed && ReadBytes(f.data, ops[0].position, ops[0].len) != Zeros(ops[0].len) {
        assert OnlyReads(ops, 0, 0) && ReadsData(f.data, ops, 0);
      } else {
        var g, rest := Next(f, ops[0]), ops[1..];
        LosesIsLostRead(g, rest);
        LostInRest(f, ops);
      }
    }
  }

  lemma LostInRest(f: File, ops: seq<Operation>)
    requires ops != [] && LostRead(Next(f, ops[0]), ops[1..])
    ensures LostRead(f, ops)
  {
    var g, rest := Next(f, ops[0]), ops[1..];
    hide ReadsData, RunsShort, OnlyReads;
    if g.failed && exists k: nat :: k < |rest| && OnlyReads(rest, 0, k) && ReadsData(g.data, rest, k) {
      var k: nat :| k < |rest| && OnlyReads(rest, 0, k) && ReadsData(g.data, rest, k);
      Shift(f, ops, k + 1);
      FirstFails(f, ops);
    } else {
      var j: nat, k: nat :| j < k < |rest| && OnlyReads(rest, j, k) && RunsShort(g.data, rest, j)
                            && ReadsData(g.data, rest, k);
      Shift(f, ops, k + 1);
      Shift(f, ops, j + 1);
    }
  }

  lemma FirstFails(f: File, ops: seq<Operation>)
    requires ops != [] && Next(f, ops[0]).failed
    ensures ops[0].Read? && (f.failed || RunsShort(f.data, ops, 0))
  {
  }

  lemma {:induction false} LostReadLoses(f: File, ops: seq<Operation>)
    ensures LostRead(f, ops) ==> Loses(f, ops)
    decreases |ops|
  {
    if ops != [] && LostRead(f, ops) && !FirstIsLost(f, ops) {
      RestLoses(f, ops);
      LostReadLoses(Next(f, ops[0]), ops[1..]);
    }
  }

  predicate FirstIsLost(f: File, ops: seq<Operation>)
    requires ops != []
  {
    f.failed && ReadsData(f.data, ops, 0)
  }

  lemma RestLoses(f: File, ops: seq<Operation>)
    requires ops != [] && LostRead(f, ops) && !FirstIsLost(f, ops)
    ensures LostRead(Next(f, ops[0]), ops[1..])
  {
    var g, rest := Next(f, ops[0]), ops[1..];
    hide ReadsData;
    if f.failed && exists k: nat :: k < |ops| && OnlyReads(ops, 0, k) && ReadsData(f.data, ops, k) {
      var k: nat :| k < |ops| && OnlyReads(ops, 0, k) && ReadsData(f.data, ops, k);
      Shift(f, ops, k);
    } else {
      var j: nat, k: nat :| j < k < |ops| && OnlyReads(ops, j, k) && RunsShort(f.data, ops, j)
                            && ReadsData(f.data, ops, k);
      Shift(f, ops, k);
      if j > 0 {
        Shift(f, ops, j);
      }
    }
  }

  /** One byte, read with the one behind it: read again, it is zero. */
  lemma ReadAfterShortRead()
    ensures FileRun(File([7], false), [Read(0, 2), Read(0, 1)]) == [[7, 0], [0]]
    ensures ReadBytes([7], 0, 1) == [7]
  {
    var f := File([7], false);
    var ops := [Read(0, 2), Read(0, 1)];
    assert ops[1..] == [Read(0, 1)] && [Read(0, 1)][1..] == [];
    assert Delivered(f, 0, 2) == [7, 0];
    var g := AfterRead(f, 0, 2);
    assert Delivered(g, 0, 1) == [0];
    assert FileRun(AfterRead(g, 0, 1), []) == [];
    assert FileRun(g, [Read(0, 1)]) == [Delivered(g, 0, 1)] + FileRun(AfterRead(g, 0, 1), []);
  }

  // ---- the chunks that fill a gap -----------------------------------------

  const MAX_CHUNK := 0x40000

  /** `std::min(max_chunk_size, (int)(write_pos - file_size))`: the gap goes
      through a 32-bit int. */
  function ChunkSize(gap: int): int {
    var g := Wrap32(gap);
    if g < MAX_CHUNK then g else MAX_CHUNK
  }

  function GapAfter(gap: int, rounds: nat): int
    decreases rounds
  {
    if rounds == 0 || gap <= 0 then gap else GapAfter(gap - ChunkSize(gap), rounds - 1)
  }

  lemma {:induction false} SmallGapCloses(gap: int) returns (rounds: nat)
    requires gap < 0x8000_0000
    ensures GapAfter(gap, rounds) <= 0
    decreases if gap < 0 then 0 else gap
  {
    if gap <= 0 {
      rounds := 0;
    } else {
      var r := SmallGapCloses(gap - ChunkSize(gap));
      rounds := r + 1;
    }
  }

  lemma {:induction false} LargeGapStays(gap: int, rounds: nat)
    requires gap >= 0x8000_0000
    ensures GapAfter(gap, rounds) >= 0x8000_0000
    decreases rounds
  {
    if rounds > 0 {
      LargeGapStays(gap - ChunkSize(gap), rounds - 1);
    }
  }

  ghost predicate LoopEnds(gap: int) { exists rounds: nat :: GapAfter(gap, rounds) <= 0 }

  /** The fill loop ends exactly when the gap fits a 32-bit int. */
  lemma GapCloses(gap: int)
    ensures LoopEnds(gap) <==> gap < 0x8000_0000
  {
    if gap < 0x8000_0000 {
      var rounds := SmallGapCloses(gap);
    } else {
      forall rounds: nat ensures GapAfter(gap, rounds) > 0 {
        LargeGapStays(gap, rounds);
      }
    }
  }

  /** What operation k has to fill behind the end of the file before it writes. */
  function GapAt(f: File, ops: seq<Operation>, k: nat): int
    requires k < |ops|
  {
    if ops[k].Write? then ops[k].position - |DataAt(f.data, ops, k)| else 0
  }

  /** Every write of the run comes to an end. */
  ghost predicate RunEnds(f: File, ops: seq<Operation>) { forall k | 0 <= k < |ops| :: LoopEnds(GapAt(f, ops, k)) }

  /** No write leaves a gap of 2^31 bytes or more. */
  predicate GapsClose(f: File, ops: seq<Operation>) { forall k | 0 <= k < |ops| :: GapAt(f, ops, k) < 0x8000_0000 }

  lemma RunEndsExactly(f: File, ops: seq<Operation>)
    ensures RunEnds(f, ops) <==> GapsClose(f, ops)
  {
    hide GapAt, LoopEnds;
    forall k | 0 <= k < |ops| ensures LoopEnds(GapAt(f, ops, k)) <==> GapAt(f, ops, k) < 0x8000_0000 {
      GapCloses(GapAt(f, ops, k));
    }
  }

  /** A run on the file ends, and reads what an endless disk that is zero past the end
      of the file would give, unless a write leaves too large a gap or a read of data
      finds the stream failed: it comes after a read past the end of the file, or in a
      stream that had failed before, with no write between.  Only then. */
  lemma FileIsEndlessDisk(f: File, disk: nat -> Byte, ops: seq<Operation>)
    requires forall q: nat :: disk(q) == ByteAt(f.data, q)
    ensures RunEnds(f, ops) && FileRun(f, ops) == DiskRun(disk, ops) <==> GapsClose(f, ops) && !LostRead(f, ops)
  {
    RunEndsExactly(f, ops);
    SameUnlessLoses(f, disk, ops);
    LosesIsLostRead(f, ops);
    LostReadLoses(f, ops);
    hide RunEnds, GapsClose, LostRead;
  }

  /** One byte behind 2^31 others on a new file: the write does not end. */
  lemma FarWriteHangs()
    ensures !RunEnds(File([], false), [Write(0x8000_0000, [1])])
  {
    var ops := [Write(0x8000_0000, [1])];
    RunEndsExactly(File([], false), ops);
    assert GapAt(File([], false), ops, 0) == 0x8000_0000;
  }

  class BinFile {
    var data: seq<Byte>
    var failed: bool           // the fail bit of the stream

    constructor()
      ensures Content() == File([], false)
    {
      data, failed := [], false;
    }

    ghost function Content(): File
      reads this
    {
      File(data, failed)
    }

    /** storageimage_binfile_c::read.  Neither seekg nor read does anything on a
        stream that has failed. */
    method Read(position: nat, len: nat) returns (buffer: array<Byte>)
      requires len > 0
      modifies this`failed
      ensures fresh(buffer) && buffer[..] == Delivered(old(Content()), position, len)
      ensures Content() == AfterRead(old(Content()), position, len)
    {
      buffer := new Byte[len](_ => 0);
      var i := 0;
      while !failed && i < len && position + i < |data|
        invariant 0 <= i <= len && (i > 0 ==> !failed && position + i <= |data|)
        invariant forall j | 0 <= j < i :: buffer[j] == ByteAt(data, position + j)
        invariant forall j | i <= j < len :: buffer[j] == 0
        modifies buffer
      {
        buffer[i] := data[position + i];
        i := i + 1;
      }
      assert !failed ==> forall j | 0 <= j < len :: buffer[j] == ByteAt(data, position + j);
      assert buffer[..] == Delivered(Content(), position, len);
      if i < len {
        failed := true;
      }
    }

    /** storageimage_binfile_c::write.  For a larger gap the loop would not end. */
    method Write(position: nat, buffer: array<Byte>)
      requires position - |data| < 0x8000_0000
      modifies this
      ensures Content() == AfterWrite(old(Content()), position, buffer[..])
    {
      failed := false;
      while |data| < position
        invariant |old(data)| <= |data| && data == Filled(old(data), |data|) && !failed
        invariant position - |data| < 0x8000_0000
        invariant |data| <= position || data == old(data)
        decreases position - |data|
      {
        var chunk := ChunkSize(position - |data|);
        data := data + Zeros(chunk);
      }
      var rest := if position + buffer.Length < |data| then data[position + buffer.Length..] else [];
      data := data[..position] + buffer[..] + rest;
    }
  }

  // ---- partly written blocks ----------------------------------------------

  /** The end of the block in which `position` lies, or `position` at a boundary. */
  function BlockEnd(position: nat, blockSize: nat): (e: nat)
    requires blockSize > 0
    ensures position <= e < position + blockSize && e % blockSize == 0
  {
    var e := (position + blockSize - 1) / blockSize * blockSize;
    RoundUp(position, blockSize);
    e
  }

  lemma RoundUp(position: nat, blockSize: nat)
    requires blockSize > 0
    ensures var e := (position + blockSize - 1) / blockSize * blockSize;
            position <= e < position + blockSize && e % blockSize == 0
  {
    var x := position + blockSize - 1;
    var q := x / blockSize;
    assert x == blockSize * q + x % blockSize;
    QuotientIs(q * blockSize, blockSize, q, 0);
  }

  /** The image after a transfer of a buffer with the remainder of its last block
      cleared (image_write, then image_clear_remaining_block_bytes). */
  function WriteAndClear(data: seq<Byte>, position: nat, buffer: seq<Byte>, blockSize: nat): seq<Byte>
    requires blockSize > 0
  {
    var written := WriteBytes(data, position, buffer);
    var end := position + |buffer|;
    var unused := BlockEnd(end, blockSize) - end;
    if unused > 0 then WriteBytes(written, end, Zeros(unused)) else written
  }

  /** A block write sets its bytes, zeroes the rest of its last block and leaves
      every other byte alone. */
  lemma WriteAndClearMeaning(data: seq<Byte>, position: nat, buffer: seq<Byte>, blockSize: nat, q: nat)
    requires blockSize > 0
    ensures var end := position + |buffer|;
            ByteAt(WriteAndClear(data, position, buffer, blockSize), q)
            == if position <= q < end then buffer[q - position]
               else if end <= q < BlockEnd(end, blockSize) then 0
               else ByteAt(data, q)
  {
    var end := position + |buffer|;
    WriteMeaning(data, position, buffer, q);
    WriteMeaning(WriteBytes(data, position, buffer), end, Zeros(BlockEnd(end, blockSize) - end), q);
  }

  // ---- geometry -----------------------------------------------------------

  datatype Geometry = Geometry(cylinders: nat, heads: nat, sectors: nat, sectorSize: nat)
  {
    predicate Valid() { cylinders > 0 && heads > 0 && sectors > 0 && sectorSize > 0 }

    predicate OnDisk(c: nat, h: nat, s: nat) { c < cylinders && h < heads && s < sectors }

    function SectorNumber(c: nat, h: nat, s: nat): nat { (c * heads + h) * sectors + s }

    /** get_image_offset, as the code adds it up (the disks are far below 2^32 bytes). */
    function ImageOffset(c: nat, h: nat, s: nat): nat {
      sectorSize * (c * heads * sectors + h * sectors + s)
    }

    /** get_chs */
    function Chs(offset: nat): (nat, nat, nat, nat)
      requires Valid()
    {
      QuotientIsNat(offset, sectorSize);
      var sector: nat := offset / sectorSize;
      QuotientIsNat(sector, sectors);
      var track: nat := sector / sectors;
      QuotientIsNat(track, heads);
      (track / heads, track % heads, sector % sectors, offset % sectorSize)
    }

    lemma OffsetIsLinear(c: nat, h: nat, s: nat)
      ensures ImageOffset(c, h, s) == sectorSize * SectorNumber(c, h, s)
    {
      assert (c * heads + h) * sectors == c * heads * sectors + h * sectors;
    }

    /** get_chs inverts get_image_offset, at every byte of the sector. */
    lemma ChsInvertsOffset(c: nat, h: nat, s: nat, byte: nat)
      requires Valid() && OnDisk(c, h, s) && byte < sectorSize
      ensures Chs(ImageOffset(c, h, s) + byte) == (c, h, s, byte)
    {
      OffsetIsLinear(c, h, s);
      var n := SectorNumber(c, h, s);
      QuotientIs(sectorSize * n + byte, sectorSize, n, byte);
      QuotientIs(n, sectors, c * heads + h, s);
      QuotientIs(c * heads + h, heads, c, h);
    }

    /** And conversely: every byte of the image belongs to the sector get_chs names. */
    lemma OffsetInvertsChs(offset: nat)
      requires Valid()
      ensures var (c, h, s, byte) := Chs(offset);
              ImageOffset(c, h, s) + byte == offset && h < heads && s < sectors && byte < sectorSize
    {
      QuotientIsNat(offset, sectorSize);
      var n: nat := offset / sectorSize;
      QuotientIsNat(n, sectors);
      var track: nat := n / sectors;
      QuotientIsNat(track, heads);
      OffsetIsLinear(track / heads, track % heads, n % sectors);
      assert SectorNumber(track / heads, track % heads, n % sectors) == n;
    }
  }
}
