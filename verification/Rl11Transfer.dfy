/** The read/write commands of the RL11 controller (state_readwrite in rl11.cpp),
    as a function on the registers, the platter, the image and host memory. */
module Rl11Transfer {
  import opened Words
  import opened HostMemory
  import opened StorageImage
  import opened ImageOfWords
  import opened RlPlatter

  datatype Command = WriteCheck | WriteData | ReadData | ReadDataWithoutHeaderCheck

  datatype RwState = Init | Disk | Done

  /** `headers` counts the headers read, for the statement of costs. */
  datatype Rw = Rw(
    command: Command, state: RwState,
    da: Word, address: nat, count: Word,                     // DA, BA with its extension, MP
    opi: bool, nxm: bool, writeCheck: bool, hnf: bool,       // errors
    ready: bool, cylinder: nat, head: nat, segment: nat,     // the drive, locked on
    protected: bool, wge: bool,
    file: File, memory: seq<Word>, headers: nat)

  predicate Valid(s: Rw) {
    s.cylinder < 512 && s.head < 2 && s.segment < 80 && s.address % 2 == 0
  }

  // ---- one pass of state_readwrite ----------------------------------------

  function Fail(s: Rw): Rw { s.(opi := true, state := Done) }

  predicate Reads(s: Rw) { s.command == ReadData || s.command == ReadDataWithoutHeaderCheck }

  /** The image offset, in words, of the data block that passes the head next. */
  function PlaceUnderHead(s: Rw): nat { SectorOffset(s.cylinder, s.head, DataSegment(s.segment) / 2) }

  function SectorUnderHead(s: Rw): (words: seq<Word>)
    ensures |words| == SECTOR_WORDS
  {
    WordsSeen(s.file, PlaceUnderHead(s), SECTOR_WORDS)
  }

  /** cmd_write_next_sector_data */
  function WriteSector(s: Rw, words: seq<Word>): Rw {
    if s.protected then s.(wge := true)
    else
      s.(wge := false, segment := Advance(DataSegment(s.segment)),
         file := AfterWrite(s.file, 2 * PlaceUnderHead(s), BytesOf(words)))
  }

  function Chunk(s: Rw): nat { if s.count > SECTOR_WORDS then SECTOR_WORDS else s.count }

  /** The DMA of the sector under the head; a write has the platter wait. */
  function MoveWords(s: Rw): Rw
    requires s.count > 0
  {
    var n := Chunk(s);
    s.(segment := if s.command == WriteData then s.segment else Advance(DataSegment(s.segment)),
       file := if s.command == WriteData then s.file else AfterReadWords(s.file, PlaceUnderHead(s), SECTOR_WORDS),
       memory := if Reads(s) then DmaOut(s.memory, s.address, SectorUnderHead(s)[..n]) else s.memory,
       nxm := Existing(|s.memory|, s.address, n) < n,
       address := EndAddress(|s.memory|, s.address, n) + 2)
  }

  /** What the disk does with the words that came by DMA, or came to be compared. */
  function StoreWords(s: Rw, host: seq<Word>, disk: seq<Word>): Rw {
    if s.command == WriteData then WriteSector(s, host)
    else if s.command == WriteCheck then s.(writeCheck := disk != host)
    else s
  }

  function NextSector(s: Rw): Rw {
    var left := s.count - Chunk(s);
    s.(da := (s.da + 1) % 0x1_0000, count := left, state := if left == 0 then Done else Disk)
  }

  function TransferSector(s: Rw): Rw
    requires s.count > 0
  {
    var moved := MoveWords(s);
    if moved.nxm then Fail(moved)
    else NextSector(StoreWords(moved, DmaIn(s.memory, s.address, Chunk(s), SECTOR_WORDS), SectorUnderHead(s)))
  }

  /** cmd_read_next_sector_header and the first word it delivers */
  function ReadHeader(s: Rw): Rw {
    s.(segment := Advance(HeaderSegment(s.segment)), headers := s.headers + 1)
  }

  function SeenHeader(s: Rw): Word
    requires Valid(s)
  {
    HeaderRead(s.segment);
    HeaderWord(s.cylinder, s.head, NextHeader(s.segment))
  }

  function ClearErrors(s: Rw): Rw { s.(opi := false, nxm := false, writeCheck := false, hnf := false) }

  predicate Proper(s: Rw) { Valid(s) && (s.state == Disk ==> s.count > 0) }

  /** A pass over one sector: its header comes by, and if it is the one wanted,
      the sector is transferred. */
  function DiskPass(s: Rw): Rw
    requires Valid(s) && s.count > 0
  {
    if s.command == ReadDataWithoutHeaderCheck then TransferSector(s)
    else if !OnTrack(s.cylinder, s.head, s.da) then Fail(s.(hnf := true))
    else if SeenHeader(s) != s.da then ReadHeader(s)
    else TransferSector(ReadHeader(s))
  }

  function Pass(s: Rw): Rw
    requires Proper(s)
  {
    if !s.ready then Fail(s)
    else match s.state
      case Init => ClearErrors(s).(state := if s.count == 0 then Done else Disk)
      case Disk => DiskPass(s)
      case Done => s
  }

  // ---- a whole command ----------------------------------------------------

  function Sector(s: Rw): nat { s.da % 0x40 }

  /** Headers still to be read before the next transfer. */
  function Remaining(s: Rw): int {
    if s.command != ReadDataWithoutHeaderCheck && Sector(s) < SECTORS
    then HeadersUntil(s.segment, Sector(s)) else 0
  }

  lemma SegmentStays(segment: nat)
    requires segment < 80
    ensures Advance(DataSegment(segment)) < 80 && Advance(HeaderSegment(segment)) < 80
  {
  }

  /** A transfer either fails or takes words off the count. */
  lemma TransferProgress(s: Rw)
    requires Valid(s) && s.count > 0
    ensures var s' := TransferSector(s);
            && Proper(s') && s'.state != Init
            && (s'.state == Disk ==> s'.count < s.count)
  {
    SegmentStays(s.segment);
    var moved := MoveWords(s);
    assert Valid(moved) && moved.count == s.count;
    if !moved.nxm {
      SegmentStays(moved.segment);
      var stored := StoreWords(moved, DmaIn(s.memory, s.address, Chunk(s), SECTOR_WORDS), SectorUnderHead(s));
      assert Valid(stored) && stored.count == s.count;
    }
  }

  lemma WantedHeader(s: Rw)
    requires Valid(s) && OnTrack(s.cylinder, s.head, s.da)
    ensures SeenHeader(s) == s.da <==> NextHeader(s.segment) == Sector(s)
  {
    hide HeaderSegment, NextHeader;
    HeaderRead(s.segment);
    HeaderFields(s.cylinder, s.head, NextHeader(s.segment));
  }

  /** A header that is not the wanted one only brings the wanted one closer. */
  lemma SearchProgress(s: Rw)
    requires Valid(s) && s.state == Disk && s.count > 0
    requires s.command != ReadDataWithoutHeaderCheck && OnTrack(s.cylinder, s.head, s.da)
    ensures SeenHeader(s) == s.da <==> Remaining(s) == 1
    ensures Valid(ReadHeader(s)) && Remaining(s) >= 1
    ensures SeenHeader(s) != s.da ==> Remaining(ReadHeader(s)) == Remaining(s) - 1
  {
    hide HeadersUntil, NextHeader, HeaderSegment, Advance, SeenHeader;
    WantedHeader(s);
    HeaderPasses(s.segment, Sector(s));
    SegmentStays(s.segment);
  }

  lemma PassProgress(s: Rw)
    requires Proper(s) && s.state == Disk
    ensures var s' := Pass(s);
            && Proper(s') && s'.state != Init
            && (s'.state == Disk ==> s'.count < s.count || (s'.count == s.count && 0 <= Remaining(s') < Remaining(s)))
  {
    hide HeadersUntil, HeaderSegment, Advance, SeenHeader, OnTrack;
    if s.ready && s.command == ReadDataWithoutHeaderCheck {
      hide TransferSector;
      TransferProgress(s);
    } else if s.ready && OnTrack(s.cylinder, s.head, s.da) {
      SearchProgress(s);
      hide TransferSector;
      if SeenHeader(s) == s.da {
        TransferProgress(ReadHeader(s));
      } else {
        SearchProgress(ReadHeader(s));
      }
    }
  }

  function Phase(s: RwState): nat { if s == Init then 2 else if s == Disk then 1 else 0 }

  /** The loop of worker(): pass after pass until the controller is ready again. */
  function Passes(s: Rw): (s': Rw)
    requires Proper(s)
    ensures s'.state == Done
    decreases Phase(s.state), s.count, Remaining(s)
  {
    if s.state == Done then s
    else if s.state == Init then Passes(Pass(s))
    else
      PassProgress(s);
      Passes(Pass(s))
  }

  /** A whole command. */
  function Run(s: Rw): (s': Rw)
    requires Proper(s)
    ensures s'.state == Done
  {
    Passes(s)
  }
}
