/** What the RL11 read/write commands amount to: a copy between the image and
    host memory, cut off at the end of the track. */
module Rl11Commands {
  import opened Words
  import opened HostMemory
  import opened StorageImage
  import opened ImageOfWords
  import opened RlPlatter
  import opened Rl11Transfer

  /** A command that looks for its sector on the track, at the start of a sector. */
  predicate Searching(s: Rw) {
    && Proper(s) && s.state == Disk && s.ready
    && s.command != ReadDataWithoutHeaderCheck
    && OnTrack(s.cylinder, s.head, s.da)
  }

  predicate NoErrors(s: Rw) { !s.opi && !s.hnf && !s.nxm }

  /** The platter turned to the data block of the wanted sector. */
  function AtSector(s: Rw): Rw
    requires Searching(s)
  {
    SearchProgress(s);
    s.(segment := 2 * Sector(s) + 1, headers := s.headers + Remaining(s))
  }

  lemma HeaderFound(s: Rw)
    requires Searching(s) && SeenHeader(s) == s.da
    ensures ReadHeader(s) == AtSector(s)
  {
    hide SeenHeader, HeadersUntil, OnTrack;
    SearchProgress(s);
    WantedHeader(s);
    HeaderRead(s.segment);
  }

  lemma HeaderPassed(s: Rw)
    requires Searching(s) && SeenHeader(s) != s.da
    ensures Searching(ReadHeader(s)) && AtSector(ReadHeader(s)) == AtSector(s)
    ensures 0 <= Remaining(ReadHeader(s)) < Remaining(s)
  {
    hide SeenHeader, HeadersUntil, Advance, HeaderSegment;
    SearchProgress(s);
    SearchProgress(ReadHeader(s));
  }

  lemma {:induction false} RunFindsSector(s: Rw)
    requires Searching(s)
    ensures Proper(AtSector(s)) && Proper(TransferSector(AtSector(s)))
    ensures Run(s) == Run(TransferSector(AtSector(s)))
    decreases Remaining(s)
  {
    hide TransferSector, HeadersUntil, SeenHeader, OnTrack;
    HeaderRead(s.segment);
    SearchProgress(s);
    TransferProgress(AtSector(s));
    PassProgress(s);
    assert Run(s) == Run(Pass(s));
    if SeenHeader(s) == s.da {
      HeaderFound(s);
    } else {
      HeaderPassed(s);
      RunFindsSector(ReadHeader(s));
    }
  }

  /** Past the end of the track, or off it, the command ends at once. */
  lemma OffTrackFails(s: Rw)
    requires Proper(s) && s.state == Disk && s.ready && s.command != ReadDataWithoutHeaderCheck
    requires !OnTrack(s.cylinder, s.head, s.da)
    ensures Run(s) == s.(hnf := true, opi := true, state := Done)
  {
    assert Run(s) == Run(Pass(s));
  }

  lemma NotReadyFails(s: Rw)
    requires Proper(s) && s.state != Done && !s.ready
    ensures Run(s) == s.(opi := true, state := Done)
  {
    assert Run(s) == Run(Pass(s));
  }

  /** A command starts with its errors cleared; with nothing to move it ends there. */
  lemma CommandStarts(s: Rw)
    requires Valid(s) && s.state == Init && s.ready
    ensures Run(s) == if s.count == 0 then ClearErrors(s).(state := Done) else Run(ClearErrors(s).(state := Disk))
  {
    assert Run(s) == Run(Pass(s));
  }

  // ---- one sector ---------------------------------------------------------

  function FirstWord(s: Rw): nat { SectorOffset(s.cylinder, s.head, Sector(s)) }

  /** The words of the track the command asks for. */
  function Wanted(s: Rw): nat
    requires Sector(s) < SECTORS
  {
    var room := SECTOR_WORDS * (SECTORS - Sector(s));
    if s.count < room then s.count else room
  }

  /** How many of them have a place in host memory. */
  function Found(s: Rw): nat
    requires Sector(s) < SECTORS
  {
    Existing(|s.memory|, s.address, Wanted(s))
  }

  /** The next sector of a track has the next words of the image. */
  lemma NextOnTrack(cylinder: nat, head: nat, da: Word)
    requires OnTrack(cylinder, head, da)
    ensures (da + 1) % 0x1_0000 == da + 1
    ensures da % 0x40 < SECTORS - 1 ==> OnTrack(cylinder, head, da + 1) && (da + 1) % 0x40 == da % 0x40 + 1
    ensures da % 0x40 == SECTORS - 1 ==> !OnTrack(cylinder, head, da + 1)
    ensures SectorOffset(cylinder, head, da % 0x40 + 1) == SectorOffset(cylinder, head, da % 0x40) + SECTOR_WORDS
  {
  }

  lemma StoreWordsKeeps(s: Rw, host: seq<Word>, disk: seq<Word>)
    ensures var t := StoreWords(s, host, disk);
            && t.command == s.command && t.cylinder == s.cylinder && t.head == s.head && t.ready == s.ready
            && t.protected == s.protected && t.da == s.da && t.count == s.count && t.address == s.address
            && t.headers == s.headers && t.nxm == s.nxm && t.opi == s.opi && t.hnf == s.hnf
            && t.memory == s.memory
  {
  }

  /** The state after a sector whose DMA worked. */
  lemma SectorDone(s: Rw)
    requires Valid(s) && s.count > 0 && Existing(|s.memory|, s.address, Chunk(s)) == Chunk(s)
    ensures var t := TransferSector(s);
            && t.command == s.command && t.cylinder == s.cylinder && t.head == s.head && t.ready == s.ready
            && t.protected == s.protected
            && t.da == (s.da + 1) % 0x1_0000 && t.count == s.count - Chunk(s) && t.address == s.address + 2 * Chunk(s)
            && t.headers == s.headers && |t.memory| == |s.memory|
            && !t.nxm && t.opi == s.opi && t.hnf == s.hnf
            && t.state == (if s.count == Chunk(s) then Done else Disk)
  {
    var moved := MoveWords(s);
    StoreWordsKeeps(moved, DmaIn(s.memory, s.address, Chunk(s), SECTOR_WORDS), SectorUnderHead(s));
  }

  /** The state after a sector whose DMA ran into missing memory. */
  lemma SectorFailed(s: Rw)
    requires Valid(s) && s.count > 0 && Existing(|s.memory|, s.address, Chunk(s)) < Chunk(s)
    ensures var t := TransferSector(s);
            && t.state == Done && t.nxm && t.opi && t.hnf == s.hnf && t.headers == s.headers
            && t.da == s.da && t.count == s.count
            && t.address == s.address + 2 * Existing(|s.memory|, s.address, Chunk(s)) + 2
            && t.wge == s.wge && (s.command == WriteData ==> t.file == s.file)
  {
  }

  /** After a sector the header of the next one comes up. */
  lemma SegmentAfter(s: Rw, sector: nat)
    requires Valid(s) && s.count > 0 && sector < SECTORS && s.segment == 2 * sector + 1
    requires Existing(|s.memory|, s.address, Chunk(s)) == Chunk(s)
    ensures var t := TransferSector(s);
            t.segment < 80 && NextHeader(t.segment) == if sector == SECTORS - 1 then 0 else sector + 1
  {
    HeaderRead(0);
    DataPassed(sector);
  }

  // ---- how a command ends -------------------------------------------------

  /** The words counted off MP: whole sectors when memory ends on the way. */
  function Counted(s: Rw): nat
    requires Sector(s) < SECTORS
  {
    if Found(s) == Wanted(s) then Wanted(s) else Found(s) / SECTOR_WORDS * SECTOR_WORDS
  }

  function Sectors(words: nat): nat { (words + SECTOR_WORDS - 1) / SECTOR_WORDS }

  /** A sector on the way to the end: the next one is the first of the rest. */
  lemma NextSectorFollows(s: Rw)
    requires Searching(s) && NoErrors(s)
    requires s.count > SECTOR_WORDS && Sector(s) < SECTORS - 1
    requires Existing(|s.memory|, s.address, SECTOR_WORDS) == SECTOR_WORDS
    ensures var t := TransferSector(AtSector(s));
            && Searching(t) && NoErrors(t) && Remaining(t) == 1 && t.headers == s.headers + Remaining(s)
            && t.command == s.command && t.protected == s.protected
            && t.da == s.da + 1 && t.count == s.count - SECTOR_WORDS && t.address == s.address + 2 * SECTOR_WORDS
            && Wanted(t) == Wanted(s) - SECTOR_WORDS && |t.memory| == |s.memory|
            && Found(t) == Found(s) - SECTOR_WORDS && Counted(t) == Counted(s) - SECTOR_WORDS
            && Sectors(Counted(t)) == Sectors(Counted(s)) - 1
            && FirstWord(t) == FirstWord(s) + SECTOR_WORDS
  {
    hide TransferSector, HeadersUntil, NextHeader;
    var at := AtSector(s);
    TransferProgress(at);
    SectorDone(at);
    SegmentAfter(at, Sector(s));
    NextOnTrack(s.cylinder, s.head, s.da);
    ExistingSplit(|s.memory|, s.address, SECTOR_WORDS, Wanted(s));
    HeaderPasses(TransferSector(at).segment, Sector(s) + 1);
  }

  /** t is the end of the command s: it moved the words that are on the track and
      have a place in memory, and failed exactly when these are fewer than asked for. */
  predicate EndOf(s: Rw, t: Rw)
    requires Searching(s)
  {
    var missing := Found(s) < Wanted(s);
    && (t.nxm <==> missing)
    && (t.hnf <==> !missing && Wanted(s) < s.count)
    && (t.opi <==> missing || Wanted(s) < s.count)
    && t.count == s.count - Counted(s)
    && t.da == s.da + Sectors(Counted(s))
    && t.address == s.address + 2 * Found(s) + (if missing then 2 else 0)
    && t.headers == s.headers + Remaining(s) + Sectors(Counted(s)) - (if missing then 0 else 1)
  }

  lemma EndsInMissingMemory(s: Rw)
    requires Searching(s) && NoErrors(s)
    requires Existing(|s.memory|, s.address, Chunk(s)) < Chunk(s)
    ensures EndOf(s, TransferSector(AtSector(s)))
  {
    SectorFailed(AtSector(s));
    ExistingSplit(|s.memory|, s.address, Chunk(s), Wanted(s));
  }

  lemma EndsWithSector(s: Rw)
    requires Searching(s) && NoErrors(s) && s.count <= SECTOR_WORDS
    requires Existing(|s.memory|, s.address, Chunk(s)) == Chunk(s)
    ensures EndOf(s, TransferSector(AtSector(s)))
  {
    SectorDone(AtSector(s));
    NextOnTrack(s.cylinder, s.head, s.da);
  }

  lemma EndsWithTrack(s: Rw)
    requires Searching(s) && NoErrors(s) && s.count > SECTOR_WORDS && Sector(s) == SECTORS - 1
    requires Existing(|s.memory|, s.address, Chunk(s)) == Chunk(s)
    ensures Proper(TransferSector(AtSector(s)))
    ensures Run(TransferSector(AtSector(s))) == TransferSector(AtSector(s)).(hnf := true, opi := true, state := Done)
    ensures EndOf(s, Run(TransferSector(AtSector(s))))
  {
    SectorDone(AtSector(s));
    TransferProgress(AtSector(s));
    NextOnTrack(s.cylinder, s.head, s.da);
    OffTrackFails(TransferSector(AtSector(s)));
  }

  /** The end of any command that checks headers. */
  lemma {:induction false} CommandEnds(s: Rw)
    requires Searching(s) && NoErrors(s)
    ensures EndOf(s, Run(s))
    decreases s.count
  {
    RunFindsSector(s);
    if Existing(|s.memory|, s.address, Chunk(s)) < Chunk(s) {
      EndsInMissingMemory(s);
      SectorFailed(AtSector(s));
    } else if s.count <= SECTOR_WORDS {
      EndsWithSector(s);
      SectorDone(AtSector(s));
    } else if Sector(s) == SECTORS - 1 {
      EndsWithTrack(s);
    } else {
      NextSectorFollows(s);
      CommandEnds(TransferSector(AtSector(s)));
    }
  }

  /** The command as it looks for its first sector. */
  function Begun(s: Rw): Rw { ClearErrors(s).(state := Disk) }

  /** A whole command, from its start, with whatever errors were left from before: it
      fails if the drive is not ready, is done if there is nothing to move, fails off the
      track, and otherwise ends as above. */
  lemma WholeCommand(s: Rw)
    requires Valid(s) && s.state == Init && s.command != ReadDataWithoutHeaderCheck
    ensures !s.ready ==> Run(s) == s.(opi := true, state := Done)
    ensures s.ready && s.count == 0 ==> Run(s) == ClearErrors(s).(state := Done)
    ensures s.ready && s.count > 0 && !OnTrack(s.cylinder, s.head, s.da) ==>
              Run(s) == ClearErrors(s).(hnf := true, opi := true, state := Done)
    ensures s.ready && s.count > 0 && OnTrack(s.cylinder, s.head, s.da) ==>
              && Searching(Begun(s)) && NoErrors(Begun(s)) && Run(s) == Run(Begun(s)) && EndOf(Begun(s), Run(s))
    ensures Begun(s) == s.(opi := false, nxm := false, writeCheck := false, hnf := false, state := Disk)
  {
    hide Run, OnTrack, EndOf;
    if !s.ready {
      NotReadyFails(s);
    } else {
      CommandStarts(s);
      if s.count > 0 {
        if OnTrack(s.cylinder, s.head, s.da) {
          CommandEnds(Begun(s));
        } else {
          OffTrackFails(Begun(s));
        }
      }
    }
  }

  /** OPI tells exactly whether some word asked for was not moved. */
  lemma SucceedsExactly(s: Rw)
    requires Valid(s) && s.state == Init && s.command != ReadDataWithoutHeaderCheck && s.ready
    ensures Run(s).opi <==> Run(s).count > 0
    ensures Run(s).opi <==> s.count > 0 && (!OnTrack(s.cylinder, s.head, s.da) || Found(s) < s.count)
  {
    hide Run, Existing;
    WholeCommand(s);
  }

  /** A command costs one header a sector, and at most 39 more to find the first. */
  lemma HeadersRead(s: Rw)
    requires Searching(s) && NoErrors(s) && Found(s) == Wanted(s)
    ensures Run(s).headers - s.headers <= SECTORS - 1 + Sectors(Wanted(s))
  {
    CommandEnds(s);
    HeaderPasses(s.segment, Sector(s));
  }

  /** A command that fits the track and memory ends without error. */
  lemma EndsWell(s: Rw)
    requires Searching(s) && NoErrors(s) && Found(s) == Wanted(s) == s.count
    ensures NoErrors(Run(s)) && Run(s).count == 0
  {
    hide Run, Wanted, Found;
    CommandEnds(s);
  }

  // ---- READ DATA ----------------------------------------------------------

  /** Sectors whose data block was read or asked for: that of a time-out counts. */
  function Visited(s: Rw): nat
    requires Sector(s) < SECTORS
  {
    Sectors(Counted(s)) + if Found(s) < Wanted(s) then 1 else 0
  }

  lemma SectorIsFetched(s: Rw, sector: nat)
    requires Valid(s) && s.count > 0 && sector < SECTORS && s.segment == 2 * sector + 1 && s.command == ReadData
    ensures var t := TransferSector(s); var first := SectorOffset(s.cylinder, s.head, sector);
            && t.file == AfterReadWords(s.file, first, SECTOR_WORDS)
            && t.memory == DmaOut(s.memory, s.address, WordsSeen(s.file, first, SECTOR_WORDS)[..Chunk(s)])
  {
    DataPassed(sector);
  }

  /** One sector of READ DATA. */
  lemma SectorIsRead(s: Rw)
    requires Searching(s) && s.command == ReadData
    ensures var t := TransferSector(AtSector(s));
            && t.file == AfterReadWords(s.file, FirstWord(s), SECTOR_WORDS)
            && t.memory == DmaOut(s.memory, s.address, WordsSeen(s.file, FirstWord(s), Chunk(s)))
  {
    SectorIsFetched(AtSector(s), Sector(s));
    WordsSeenSplit(s.file, FirstWord(s), Chunk(s), SECTOR_WORDS);
  }

  /** What READ DATA is to leave in memory. */
  function Copied(s: Rw): seq<Word>
    requires Sector(s) < SECTORS
  {
    DmaOut(s.memory, s.address, WordsSeen(s.file, FirstWord(s), Wanted(s)))
  }

  lemma LastSectorCopies(s: Rw)
    requires Searching(s) && s.command == ReadData
    requires Existing(|s.memory|, s.address, Chunk(s)) < Chunk(s) || Chunk(s) == Wanted(s)
    ensures TransferSector(AtSector(s)).memory == Copied(s)
  {
    SectorIsRead(s);
    var c := Chunk(s);
    WordsSeenSplit(s.file, FirstWord(s), c, Wanted(s));
    DmaOutSplit(s.memory, s.address, WordsSeen(s.file, FirstWord(s), c),
                WordsSeen(s.file, FirstWord(s) + c, Wanted(s) - c));
  }

  lemma CopySplit(memory: seq<Word>, address: nat, f: File, first: nat, n: nat)
    requires address % 2 == 0 && n >= SECTOR_WORDS
    ensures DmaOut(DmaOut(memory, address, WordsSeen(f, first, SECTOR_WORDS)), address + 2 * SECTOR_WORDS,
                   WordsSeen(AfterReadWords(f, first, SECTOR_WORDS), first + SECTOR_WORDS, n - SECTOR_WORDS))
            == DmaOut(memory, address, WordsSeen(f, first, n))
  {
    var x := WordsSeen(f, first, SECTOR_WORDS);
    var y := WordsSeen(f, first + SECTOR_WORDS, n - SECTOR_WORDS);
    NothingLostBehindEnd(f, first, SECTOR_WORDS, first + SECTOR_WORDS, n - SECTOR_WORDS);
    assert WordsSeen(f, first, n) == x + y by {
      WordsSeenSplit(f, first, SECTOR_WORDS, n);
    }
    DmaOutSplit(memory, address, x, y);
  }

  lemma SectorThenRestCopies(s: Rw)
    requires Searching(s) && NoErrors(s) && s.command == ReadData
    requires s.count > SECTOR_WORDS && Sector(s) < SECTORS - 1
    requires Existing(|s.memory|, s.address, SECTOR_WORDS) == SECTOR_WORDS
    ensures Sector(TransferSector(AtSector(s))) < SECTORS
    ensures Copied(TransferSector(AtSector(s))) == Copied(s)
  {
    NextSectorFollows(s);
    SectorIsRead(s);
    CopySplit(s.memory, s.address, s.file, FirstWord(s), Wanted(s));
  }

  /** The file after the sectors a reading command visits. */
  function Passed(s: Rw): File
    requires Sector(s) < SECTORS
  {
    AfterReadWords(s.file, FirstWord(s), SECTOR_WORDS * Visited(s))
  }

  lemma PassedAtOnce(s: Rw)
    requires Searching(s)
    requires Existing(|s.memory|, s.address, Chunk(s)) < Chunk(s) || Chunk(s) == Wanted(s)
    ensures Visited(s) == 1
  {
    ExistingSplit(|s.memory|, s.address, Chunk(s), Wanted(s));
  }

  lemma PassedThenRest(s: Rw)
    requires Searching(s) && NoErrors(s)
    requires s.count > SECTOR_WORDS && Sector(s) < SECTORS - 1
    requires Existing(|s.memory|, s.address, SECTOR_WORDS) == SECTOR_WORDS
    requires TransferSector(AtSector(s)).file == AfterReadWords(s.file, FirstWord(s), SECTOR_WORDS)
    ensures Sector(TransferSector(AtSector(s))) < SECTORS
    ensures Passed(TransferSector(AtSector(s))) == Passed(s)
  {
    NextSectorFollows(s);
    var t := TransferSector(AtSector(s));
    hide TransferSector, AtSector, Wanted, Found, FirstWord;
    assert Visited(t) == Visited(s) - 1;
    assert Visited(t) > 0 by {
      SomethingVisited(t);
    }
    ReadsJoin(s.file, FirstWord(s), SECTOR_WORDS, SECTOR_WORDS * Visited(t));
  }

  lemma SomethingVisited(s: Rw)
    requires Searching(s)
    ensures Visited(s) > 0
  {
  }

  /** READ DATA copies the words of the file; the stream has failed afterwards if a
      sector visited ends behind the end of the file. */
  lemma {:induction false} ReadDataEffect(s: Rw)
    requires Searching(s) && NoErrors(s) && s.command == ReadData
    ensures Run(s).memory == Copied(s) && Run(s).file == Passed(s)
    decreases s.count
  {
    hide TransferSector, Copied, Visited;
    RunFindsSector(s);
    SectorIsRead(s);
    if Existing(|s.memory|, s.address, Chunk(s)) < Chunk(s) {
      SectorFailed(AtSector(s));
      LastSectorCopies(s);
      PassedAtOnce(s);
    } else if s.count <= SECTOR_WORDS {
      SectorDone(AtSector(s));
      LastSectorCopies(s);
      PassedAtOnce(s);
    } else if Sector(s) == SECTORS - 1 {
      EndsWithTrack(s);
      LastSectorCopies(s);
      PassedAtOnce(s);
    } else {
      NextSectorFollows(s);
      SectorThenRestCopies(s);
      PassedThenRest(s);
      ReadDataEffect(TransferSector(AtSector(s)));
    }
  }

  // ---- READ DATA WITHOUT HEADER CHECK -------------------------------------

  /** A read of whatever data blocks pass the head. */
  predicate Streaming(s: Rw) {
    Proper(s) && s.state == Disk && s.ready && s.command == ReadDataWithoutHeaderCheck
  }

  /** The sector whose data block passes the head after j others. */
  function Passing(s: Rw, j: nat): nat { (DataSegment(s.segment) / 2 + j) % SECTORS }

  function PassingPlace(s: Rw, j: nat): nat { SectorOffset(s.cylinder, s.head, Passing(s, j)) }

  /** That sector ends behind the end of the image file. */
  predicate EndsBehind(s: Rw, j: nat) { Short(s.file.data, 2 * PassingPlace(s, j), 2 * SECTOR_WORDS) }

  /** The file after the first k of them. */
  ghost function AfterPassing(s: Rw, k: nat): File {
    s.file.(failed := s.file.failed || exists j: nat :: j < k && EndsBehind(s, j))
  }

  /** Word i of the sectors that pass: of the image, but zero once the stream has failed. */
  ghost function PassingWord(s: Rw, i: nat): Word {
    WordSeen(AfterPassing(s, i / SECTOR_WORDS), PassingPlace(s, i / SECTOR_WORDS) + i % SECTOR_WORDS)
  }

  ghost function PassingWords(s: Rw, n: nat): (words: seq<Word>)
    ensures |words| == n && forall i | 0 <= i < n :: words[i] == PassingWord(s, i)
  {
    seq<Word>(n, i requires i >= 0 => PassingWord(s, i))
  }

  lemma PassingOn(s: Rw, j: nat)
    requires Valid(s)
    ensures Passing(s.(segment := Advance(DataSegment(s.segment))), j) == Passing(s, j + 1)
  {
    var d := DataSegment(s.segment);
    assert d % 2 == 1 && d < 80;
    var n := Advance(d);
    assert DataSegment(n) / 2 == if d == 79 then 0 else d / 2 + 1;
    if d == 79 {
      QuotientIs(d / 2 + j + 1, SECTORS, 1 + j / SECTORS, j % SECTORS);
    }
  }

  lemma FirstPlace(s: Rw)
    requires Valid(s)
    ensures PassingPlace(s, 0) == PlaceUnderHead(s)
    ensures AfterPassing(s, 0) == s.file
    ensures AfterPassing(s, 1) == AfterReadWords(s.file, PlaceUnderHead(s), SECTOR_WORDS)
  {
    assert Passing(s, 0) == DataSegment(s.segment) / 2;
    hide SectorOffset, DataSegment, Passing;
    assert EndsBehind(s, 0) <==> Short(s.file.data, 2 * PlaceUnderHead(s), 2 * SECTOR_WORDS);
  }

  lemma FirstWords(s: Rw, n: nat)
    requires Valid(s) && n <= SECTOR_WORDS
    ensures PassingWords(s, n) == SectorUnderHead(s)[..n]
  {
    FirstPlace(s);
    hide PassingPlace, AfterPassing, PlaceUnderHead, WordSeen;
    forall i | 0 <= i < n ensures PassingWords(s, n)[i] == SectorUnderHead(s)[i] {
      assert i / SECTOR_WORDS == 0 && i % SECTOR_WORDS == i;
    }
  }

  lemma FirstPasses(s: Rw)
    requires Streaming(s)
    ensures var t := TransferSector(s);
            && t.memory == DmaOut(s.memory, s.address, PassingWords(s, Chunk(s)))
            && t.file == AfterPassing(s, 1)
            && t.segment == Advance(DataSegment(s.segment))
            && t.cylinder == s.cylinder && t.head == s.head && t.command == s.command
  {
    FirstPlace(s);
    FirstWords(s, Chunk(s));
    hide PassingWords, AfterPassing, PlaceUnderHead, SectorUnderHead, DmaOut, DataSegment, Advance;
  }

  lemma RestPasses(s: Rw, t: Rw, j: nat)
    requires Valid(s) && t.file == AfterPassing(s, 1) && t.segment == Advance(DataSegment(s.segment))
    requires t.cylinder == s.cylinder && t.head == s.head
    ensures PassingPlace(t, j) == PassingPlace(s, j + 1)
    ensures EndsBehind(t, j) <==> EndsBehind(s, j + 1)
  {
    PassingOn(s, j);
    hide SectorOffset, DataSegment, Advance;
  }

  lemma RestFails(s: Rw, t: Rw, k: nat)
    requires Valid(s) && t.file == AfterPassing(s, 1) && t.segment == Advance(DataSegment(s.segment))
    requires t.cylinder == s.cylinder && t.head == s.head
    ensures AfterPassing(t, k) == AfterPassing(s, k + 1)
  {
    forall j: nat ensures EndsBehind(t, j) <==> EndsBehind(s, j + 1) {
      RestPasses(s, t, j);
    }
    hide EndsBehind, DataSegment, Advance;
    if j: nat :| j < k + 1 && EndsBehind(s, j) {
      if j > 0 {
        assert EndsBehind(t, j - 1);
      }
    }
    if j: nat :| j < k && EndsBehind(t, j) {
      assert EndsBehind(s, j + 1);
    }
  }

  lemma RestWord(s: Rw, t: Rw, i: nat)
    requires Valid(s) && t.file == AfterPassing(s, 1) && t.segment == Advance(DataSegment(s.segment))
    requires t.cylinder == s.cylinder && t.head == s.head
    ensures PassingWord(s, SECTOR_WORDS + i) == PassingWord(t, i)
  {
    hide PassingPlace, AfterPassing, WordSeen, DataSegment, Advance;
    var k := i / SECTOR_WORDS;
    QuotientIs(SECTOR_WORDS + i, SECTOR_WORDS, k + 1, i % SECTOR_WORDS);
    RestPasses(s, t, k);
    RestFails(s, t, k);
  }

  lemma RestWords(s: Rw, t: Rw, n: nat)
    requires Valid(s) && t.file == AfterPassing(s, 1) && t.segment == Advance(DataSegment(s.segment))
    requires t.cylinder == s.cylinder && t.head == s.head && n >= SECTOR_WORDS
    ensures PassingWords(s, n) == PassingWords(s, SECTOR_WORDS) + PassingWords(t, n - SECTOR_WORDS)
  {
    hide PassingWord, AfterPassing, DataSegment, Advance, Valid;
    var all, first, rest := PassingWords(s, n), PassingWords(s, SECTOR_WORDS), PassingWords(t, n - SECTOR_WORDS);
    forall i | SECTOR_WORDS <= i < n ensures all[i] == rest[i - SECTOR_WORDS] {
      RestWord(s, t, i - SECTOR_WORDS);
    }
    assert all == first + rest;
  }

  /** t is the end of a read without header check: neither the end of the track nor the
      address in DA stops it, only the end of memory. */
  ghost predicate StreamedTo(s: Rw, t: Rw) {
    var found := Existing(|s.memory|, s.address, s.count);
    var moved := if found == s.count then s.count else found / SECTOR_WORDS * SECTOR_WORDS;
    && t.memory == DmaOut(s.memory, s.address, PassingWords(s, s.count))
    && t.file == AfterPassing(s, Sectors(moved) + if found < s.count then 1 else 0)
    && t.count == s.count - moved && t.da == (s.da + Sectors(moved)) % 0x1_0000
    && t.address == s.address + 2 * found + (if found < s.count then 2 else 0)
    && (t.nxm <==> found < s.count) && (t.opi <==> found < s.count) && !t.hnf && t.headers == s.headers
  }

  lemma StreamsInMissingMemory(s: Rw)
    requires Streaming(s) && NoErrors(s) && Existing(|s.memory|, s.address, Chunk(s)) < Chunk(s)
    ensures StreamedTo(s, TransferSector(s))
  {
    hide PassingWords, AfterPassing, TransferSector;
    SectorFailed(s);
    FirstPasses(s);
    var c := Chunk(s);
    ExistingSplit(|s.memory|, s.address, c, s.count);
    FewerWords(s, c, s.count);
    DmaOutSplit(s.memory, s.address, PassingWords(s, c), PassingWords(s, s.count)[c..]);
    hide DmaOut;
  }

  lemma FewerWords(s: Rw, c: nat, n: nat)
    requires c <= n
    ensures PassingWords(s, n) == PassingWords(s, c) + PassingWords(s, n)[c..]
  {
    hide PassingWord;
  }

  lemma StreamsLast(s: Rw)
    requires Streaming(s) && NoErrors(s) && s.count <= SECTOR_WORDS
    requires Existing(|s.memory|, s.address, Chunk(s)) == Chunk(s)
    ensures StreamedTo(s, TransferSector(s)) && TransferSector(s).state == Done
  {
    hide PassingWords, AfterPassing, TransferSector, DmaOut;
    SectorDone(s);
    FirstPasses(s);
  }

  lemma StreamsOnState(s: Rw)
    requires Streaming(s) && NoErrors(s) && s.count > SECTOR_WORDS
    requires Existing(|s.memory|, s.address, SECTOR_WORDS) == SECTOR_WORDS
    ensures var t := TransferSector(s);
            && Streaming(t) && NoErrors(t) && t.count == s.count - SECTOR_WORDS && |t.memory| == |s.memory|
            && t.address == s.address + 2 * SECTOR_WORDS && t.da == (s.da + 1) % 0x1_0000 && t.headers == s.headers
            && Existing(|t.memory|, t.address, t.count)
               == Existing(|s.memory|, s.address, s.count) - SECTOR_WORDS
  {
    hide TransferSector;
    TransferProgress(s);
    SectorDone(s);
    FirstPasses(s);
    hide PassingWords, AfterPassing, DmaOut, DataSegment, Advance;
    ExistingSplit(|s.memory|, s.address, SECTOR_WORDS, s.count);
  }

  lemma MovedOn(found: nat, count: nat, da: Word)
    requires found <= count
    ensures var moved := if found == count then count else found / SECTOR_WORDS * SECTOR_WORDS;
            var all := if found == count then count + SECTOR_WORDS
                       else (found + SECTOR_WORDS) / SECTOR_WORDS * SECTOR_WORDS;
            && all == moved + SECTOR_WORDS && Sectors(all) == Sectors(moved) + 1
            && ((da + 1) % 0x1_0000 + Sectors(moved)) % 0x1_0000 == (da + Sectors(all)) % 0x1_0000
  {
    QuotientIs(found + SECTOR_WORDS, SECTOR_WORDS, found / SECTOR_WORDS + 1, found % SECTOR_WORDS);
  }

  lemma StreamsOn(s: Rw, u: Rw)
    requires Streaming(s) && NoErrors(s) && s.count > SECTOR_WORDS
    requires Existing(|s.memory|, s.address, SECTOR_WORDS) == SECTOR_WORDS
    ensures Streaming(TransferSector(s)) && StreamedTo(TransferSector(s), u) ==> StreamedTo(s, u)
  {
    hide PassingWords, AfterPassing, TransferSector, DataSegment, Advance, Existing, Sectors;
    StreamsOnState(s);
    FirstPasses(s);
    var t := TransferSector(s);
    var found := Existing(|t.memory|, t.address, t.count);
    RestWords(s, t, s.count);
    DmaOutSplit(s.memory, s.address, PassingWords(s, SECTOR_WORDS), PassingWords(t, t.count));
    hide DmaOut;
    MovedOn(found, t.count, s.da);
    var moved := if found == t.count then t.count else found / SECTOR_WORDS * SECTOR_WORDS;
    RestFails(s, t, Sectors(moved) + if found < t.count then 1 else 0);
  }

  /** The whole command. */
  lemma {:induction false} StreamingEffect(s: Rw)
    requires Streaming(s) && NoErrors(s)
    ensures StreamedTo(s, Run(s))
    decreases s.count
  {
    hide TransferSector, StreamedTo;
    TransferProgress(s);
    assert Run(s) == Run(TransferSector(s));
    if Existing(|s.memory|, s.address, Chunk(s)) < Chunk(s) {
      SectorFailed(s);
      StreamsInMissingMemory(s);
    } else if s.count <= SECTOR_WORDS {
      StreamsLast(s);
    } else {
      StreamsOnState(s);
      StreamsOn(s, Run(TransferSector(s)));
      StreamingEffect(TransferSector(s));
    }
  }

  /** From its start: the address in DA does not matter. */
  lemma WholeStreaming(s: Rw)
    requires Valid(s) && s.state == Init && s.command == ReadDataWithoutHeaderCheck && s.ready && s.count > 0
    ensures Run(s) == Run(Begun(s)) && Streaming(Begun(s)) && StreamedTo(Begun(s), Run(s))
  {
    CommandStarts(s);
    StreamingEffect(Begun(s));
    hide Run, StreamedTo;
  }

  // ---- WRITE DATA ---------------------------------------------------------

  /** One sector of WRITE DATA, at the platter position. */
  lemma SectorIsStored(s: Rw, sector: nat)
    requires Valid(s) && s.count > 0 && sector < SECTORS && s.segment == 2 * sector + 1 && s.command == WriteData
    ensures var t := TransferSector(s); var ok := Existing(|s.memory|, s.address, Chunk(s)) == Chunk(s);
            && t.memory == s.memory
            && (ok && s.protected ==> t.file == s.file && t.wge)
            && (ok && !s.protected ==>
                  !t.wge && t.file == AfterWrite(s.file, 2 * SectorOffset(s.cylinder, s.head, sector),
                                                 BytesOf(DmaIn(s.memory, s.address, Chunk(s), SECTOR_WORDS))))
  {
    DataPassed(sector);
  }

  /** One sector of WRITE DATA: its words, with zeros behind the last one. */
  lemma SectorIsWritten(s: Rw, q: nat)
    requires Searching(s) && s.command == WriteData && !s.protected
    requires Existing(|s.memory|, s.address, Chunk(s)) == Chunk(s)
    ensures WordAt(TransferSector(AtSector(s)).file.data, q)
            == if FirstWord(s) <= q < FirstWord(s) + SECTOR_WORDS
               then WordIn(s.memory, s.address, Chunk(s), q - FirstWord(s))
               else WordAt(s.file.data, q)
  {
    hide WriteBytes;
    SectorIsStored(AtSector(s), Sector(s));
    PaddedSectorStored(s.file.data, TransferSector(AtSector(s)).file.data, FirstWord(s), SECTOR_WORDS,
                       s.memory, s.address, Chunk(s), q);
  }

  /** What WRITE DATA is to leave at a word of the image: the words that came from
      memory, zeros up to the end of their last sector, the old word elsewhere. */
  function Stored(s: Rw, q: nat): Word
    requires Sector(s) < SECTORS
  {
    var first := FirstWord(s);
    if first <= q < first + SECTOR_WORDS * Sectors(Counted(s))
    then WordIn(s.memory, s.address, Counted(s), q - first)
    else WordAt(s.file.data, q)
  }

  lemma SectorThenRestStores(s: Rw, q: nat)
    requires Searching(s) && NoErrors(s) && s.command == WriteData && !s.protected
    requires s.count > SECTOR_WORDS && Sector(s) < SECTORS - 1
    requires Existing(|s.memory|, s.address, SECTOR_WORDS) == SECTOR_WORDS
    ensures Sector(TransferSector(AtSector(s))) < SECTORS
    ensures Stored(TransferSector(AtSector(s)), q) == Stored(s, q)
  {
    hide WriteBytes, WordAt;
    NextSectorFollows(s);
    SectorIsStored(AtSector(s), Sector(s));
    SectorIsWritten(s, q);
  }

  lemma LastSectorStores(s: Rw, q: nat)
    requires Searching(s) && s.command == WriteData && !s.protected
    requires Existing(|s.memory|, s.address, Chunk(s)) == Chunk(s) && Chunk(s) == Wanted(s)
    ensures WordAt(TransferSector(AtSector(s)).file.data, q) == Stored(s, q)
  {
    hide WriteBytes, WordAt;
    SectorIsWritten(s, q);
  }

  lemma NothingStores(s: Rw, q: nat)
    requires Searching(s) && Existing(|s.memory|, s.address, Chunk(s)) < Chunk(s)
    ensures Stored(s, q) == WordAt(s.file.data, q)
  {
    ExistingSplit(|s.memory|, s.address, Chunk(s), Wanted(s));
  }

  lemma {:induction false} WriteDataEffect(s: Rw, q: nat)
    requires Searching(s) && NoErrors(s) && s.command == WriteData && !s.protected
    ensures WordAt(Run(s).file.data, q) == Stored(s, q)
    ensures Run(s).memory == s.memory
    decreases s.count
  {
    hide TransferSector, Stored, WordAt;
    RunFindsSector(s);
    SectorIsStored(AtSector(s), Sector(s));
    if Existing(|s.memory|, s.address, Chunk(s)) < Chunk(s) {
      SectorFailed(AtSector(s));
      NothingStores(s, q);
    } else if s.count <= SECTOR_WORDS {
      SectorDone(AtSector(s));
      LastSectorStores(s, q);
    } else if Sector(s) == SECTORS - 1 {
      EndsWithTrack(s);
      LastSectorStores(s, q);
    } else {
      NextSectorFollows(s);
      SectorThenRestStores(s, q);
      WriteDataEffect(TransferSector(AtSector(s)), q);
    }
  }

  /** No sector of another track changes. */
  lemma OtherTracksKept(s: Rw, cylinder: nat, head: nat, sector: nat, i: nat)
    requires Searching(s) && NoErrors(s) && s.command == WriteData && !s.protected
    requires head < 2 && sector < SECTORS && i < SECTOR_WORDS && (cylinder, head) != (s.cylinder, s.head)
    ensures var q := SectorOffset(cylinder, head, sector) + i;
            WordAt(Run(s).file.data, q) == WordAt(s.file.data, q)
  {
    WriteDataEffect(s, SectorOffset(cylinder, head, sector) + i);
    OnOtherTrack(s, cylinder, head, sector, i);
    hide Run, WordAt, Searching;
  }

  /** The words of a command lie on its track. */
  lemma OnOtherTrack(s: Rw, cylinder: nat, head: nat, sector: nat, i: nat)
    requires Searching(s) && head < 2 && sector < SECTORS && i < SECTOR_WORDS
    requires (cylinder, head) != (s.cylinder, s.head)
    ensures var q := SectorOffset(cylinder, head, sector) + i;
            q < FirstWord(s) || FirstWord(s) + SECTOR_WORDS * Sectors(Counted(s)) <= q
  {
    var room := SECTORS - Sector(s);
    SectorsBelow(Counted(s), room);
    TracksApart(s.cylinder, s.head, Sector(s), room, cylinder, head, sector, i);
    hide Searching, Counted, SectorOffset;
  }

  lemma SectorsBelow(words: nat, n: nat)
    requires words <= SECTOR_WORDS * n
    ensures Sectors(words) <= n
  {
  }

  lemma TracksApart(c: nat, h: nat, sector: nat, n: nat, c': nat, h': nat, sector': nat, i: nat)
    requires h < 2 && h' < 2 && sector + n <= SECTORS && sector' < SECTORS && i < SECTOR_WORDS && (c, h) != (c', h')
    ensures var q := SectorOffset(c', h', sector') + i; var first := SectorOffset(c, h, sector);
            q < first || first + SECTOR_WORDS * n <= q
  {
  }

  /** The first sector that is written clears a failure of the stream. */
  lemma {:induction false} WriteClearsFailure(s: Rw)
    requires Searching(s) && NoErrors(s) && s.command == WriteData && !s.protected
    ensures Run(s).file.failed <==> s.file.failed && Existing(|s.memory|, s.address, Chunk(s)) < Chunk(s)
    decreases s.count
  {
    hide TransferSector, WriteBytes;
    RunFindsSector(s);
    SectorIsStored(AtSector(s), Sector(s));
    if Existing(|s.memory|, s.address, Chunk(s)) < Chunk(s) {
      SectorFailed(AtSector(s));
    } else if s.count <= SECTOR_WORDS {
      SectorDone(AtSector(s));
    } else if Sector(s) == SECTORS - 1 {
      EndsWithTrack(s);
    } else {
      NextSectorFollows(s);
      WriteClearsFailure(TransferSector(AtSector(s)));
    }
  }

  /** A write-protected drive keeps its image and reports a write gate error. */
  lemma {:induction false} ProtectedWrite(s: Rw)
    requires Searching(s) && NoErrors(s) && s.command == WriteData && s.protected
    ensures Run(s).file == s.file && Run(s).memory == s.memory
    ensures Run(s).wge <==> s.wge || Existing(|s.memory|, s.address, Chunk(s)) == Chunk(s)
    decreases s.count
  {
    RunFindsSector(s);
    SectorIsStored(AtSector(s), Sector(s));
    if Existing(|s.memory|, s.address, Chunk(s)) < Chunk(s) {
      SectorFailed(AtSector(s));
    } else if s.count <= SECTOR_WORDS {
      SectorDone(AtSector(s));
    } else if Sector(s) == SECTORS - 1 {
      EndsWithTrack(s);
    } else {
      NextSectorFollows(s);
      ProtectedWrite(TransferSector(AtSector(s)));
    }
  }

  // ---- WRITE CHECK --------------------------------------------------------

  lemma SectorIsCompared(s: Rw, sector: nat)
    requires Valid(s) && s.count > 0 && sector < SECTORS && s.segment == 2 * sector + 1 && s.command == WriteCheck
    ensures var t := TransferSector(s); var ok := Existing(|s.memory|, s.address, Chunk(s)) == Chunk(s);
            var first := SectorOffset(s.cylinder, s.head, sector);
            && t.file == AfterReadWords(s.file, first, SECTOR_WORDS) && t.memory == s.memory
            && (ok ==> (t.writeCheck <==>
                  WordsSeen(s.file, first, SECTOR_WORDS) != DmaIn(s.memory, s.address, Chunk(s), SECTOR_WORDS)))
            && (!ok ==> t.writeCheck == s.writeCheck)
  {
    DataPassed(sector);
  }

  /** The sector k of a transfer of n words differs from host memory, zero-padded. */
  predicate Differs(f: File, first: nat, memory: seq<Word>, address: nat, n: nat, k: nat)
    requires SECTOR_WORDS * k <= n
  {
    WordsSeen(f, first + SECTOR_WORDS * k, SECTOR_WORDS)
    != DmaIn(memory, address + 2 * SECTOR_WORDS * k, n - SECTOR_WORDS * k, SECTOR_WORDS)
  }

  predicate SectorDiffers(s: Rw, k: nat)
    requires Sector(s) < SECTORS && SECTOR_WORDS * k <= Wanted(s)
  {
    Differs(s.file, FirstWord(s), s.memory, s.address, Wanted(s), k)
  }

  /** The last sector that was compared differs. */
  predicate LastDiffers(s: Rw)
    requires Sector(s) < SECTORS && Counted(s) > 0
  {
    SectorDiffers(s, Sectors(Counted(s)) - 1)
  }

  lemma DiffersBehind(f: File, first: nat, memory: seq<Word>, address: nat, n: nat, k: nat)
    requires k >= 1 && SECTOR_WORDS * k <= n
    ensures Differs(AfterReadWords(f, first, SECTOR_WORDS), first + SECTOR_WORDS, memory, address + 2 * SECTOR_WORDS,
                    n - SECTOR_WORDS, k - 1)
            <==> Differs(f, first, memory, address, n, k)
  {
    NothingLostBehindEnd(f, first, SECTOR_WORDS, first + SECTOR_WORDS * k, SECTOR_WORDS);
    hide WordsSeen, DmaIn;
  }

  lemma DiffersInRest(s: Rw)
    requires Searching(s) && NoErrors(s) && s.command == WriteCheck
    requires Existing(|s.memory|, s.address, SECTOR_WORDS) == SECTOR_WORDS
    requires s.count > SECTOR_WORDS && Sector(s) < SECTORS - 1
    ensures var t := TransferSector(AtSector(s));
            && Searching(t) && Counted(s) == Counted(t) + SECTOR_WORDS
            && (Counted(t) > 0 ==> (LastDiffers(t) <==> LastDiffers(s)))
            && (Counted(t) == 0 ==> (t.writeCheck <==> LastDiffers(s)))
  {
    hide TransferSector, DmaIn, WordsSeen, AfterReadWords, Existing, OnTrack;
    NextSectorFollows(s);
    SectorIsCompared(AtSector(s), Sector(s));
    var t := TransferSector(AtSector(s));
    FirstChunkPadded(s);
    hide Found, NoErrors;
    if Counted(t) > 0 {
      DiffersBehind(s.file, FirstWord(s), s.memory, s.address, Wanted(s), Sectors(Counted(s)) - 1);
    }
  }

  /** Padding starts behind the words asked for, also in a sector of its own. */
  lemma FirstChunkPadded(s: Rw)
    requires Searching(s)
    ensures DmaIn(s.memory, s.address, Wanted(s), SECTOR_WORDS) == DmaIn(s.memory, s.address, Chunk(s), SECTOR_WORDS)
  {
  }

  lemma DiffersAtOnce(s: Rw)
    requires Searching(s) && s.command == WriteCheck && Chunk(s) == Wanted(s) == Found(s)
    ensures Counted(s) > 0
    ensures TransferSector(AtSector(s)).writeCheck <==> LastDiffers(s)
  {
    hide TransferSector, DmaIn, WordsSeen;
    SectorIsCompared(AtSector(s), Sector(s));
  }

  lemma NothingCompared(s: Rw)
    requires Searching(s) && Existing(|s.memory|, s.address, Chunk(s)) < Chunk(s)
    ensures Counted(s) == 0
  {
    ExistingSplit(|s.memory|, s.address, Chunk(s), Wanted(s));
  }

  lemma FirstSectorFound(s: Rw)
    requires Searching(s) && Existing(|s.memory|, s.address, Chunk(s)) == Chunk(s) == Wanted(s)
    ensures Found(s) == Wanted(s)
  {
  }

  /** WRITE CHECK reports a mismatch of the last sector it compared, and of no other:
      each sector clears the error of the one before.  If memory ends in the first
      sector none is compared. */
  lemma {:induction false} WriteCheckEffect(s: Rw)
    requires Searching(s) && NoErrors(s) && s.command == WriteCheck
    ensures Run(s).memory == s.memory && Run(s).file == Passed(s)
    ensures Run(s).writeCheck <==> if Counted(s) == 0 then s.writeCheck else LastDiffers(s)
    decreases s.count
  {
    hide TransferSector, LastDiffers, Counted, Visited;
    RunFindsSector(s);
    SectorIsCompared(AtSector(s), Sector(s));
    if Existing(|s.memory|, s.address, Chunk(s)) < Chunk(s) {
      SectorFailed(AtSector(s));
      NothingCompared(s);
      PassedAtOnce(s);
    } else if s.count <= SECTOR_WORDS {
      SectorDone(AtSector(s));
      FirstSectorFound(s);
      DiffersAtOnce(s);
      PassedAtOnce(s);
    } else if Sector(s) == SECTORS - 1 {
      EndsWithTrack(s);
      FirstSectorFound(s);
      DiffersAtOnce(s);
      PassedAtOnce(s);
    } else {
      NextSectorFollows(s);
      DiffersInRest(s);
      PassedThenRest(s);
      WriteCheckEffect(TransferSector(AtSector(s)));
    }
  }

  /** Two sectors of an empty image are checked against a memory of zeros with a one
      in front. */
  function CheckOfTwoSectors(): Rw {
    Rw(WriteCheck, Disk, 0, 0, 2 * SECTOR_WORDS, false, false, false, false,
       true, 0, 0, 0, false, false, File([], false), [1] + DmaIn([], 0, 0, 2 * SECTOR_WORDS - 1), 0)
  }

  lemma CheckIsProper()
    ensures var s := CheckOfTwoSectors();
            && Searching(s) && NoErrors(s) && FirstWord(s) == 0
            && Wanted(s) == Found(s) == Counted(s) == s.count == 2 * SECTOR_WORDS
            && Sectors(Counted(s)) == 2
  {
  }

  /** A one in front of zeros. */
  predicate OneThenZeros(memory: seq<Word>) {
    |memory| == 2 * SECTOR_WORDS && memory[0] == 1 && forall i | 0 < i < |memory| :: memory[i] == 0
  }

  lemma FirstDiffers(memory: seq<Word>)
    requires OneThenZeros(memory)
    ensures Differs(File([], false), 0, memory, 0, 2 * SECTOR_WORDS, 0)
  {
    hide WordsSeen, DmaIn;
    EmptyFileSeen(0);
    FirstOfHost(memory);
  }

  lemma FirstOfHost(memory: seq<Word>)
    requires OneThenZeros(memory)
    ensures DmaIn(memory, 0, 2 * SECTOR_WORDS, SECTOR_WORDS) != seq<Word>(SECTOR_WORDS, _ => 0)
  {
    assert DmaIn(memory, 0, 2 * SECTOR_WORDS, SECTOR_WORDS)[0] == 1;
  }

  lemma SecondAgrees(memory: seq<Word>)
    requires OneThenZeros(memory)
    ensures !Differs(File([], false), 0, memory, 0, 2 * SECTOR_WORDS, 1)
  {
    var words := seq<Word>(SECTOR_WORDS, _ => 0);
    EmptyFileSeen(SECTOR_WORDS);
    forall i | 0 <= i < SECTOR_WORDS
      ensures words[i] == WordIn(memory, 0, 2 * SECTOR_WORDS, SECTOR_WORDS * 1 + i)
    {
    }
    WordsOfSector(words, memory, 0, 2 * SECTOR_WORDS, 1);
  }

  lemma EmptyFileSeen(offset: nat)
    ensures WordsSeen(File([], false), offset, SECTOR_WORDS) == seq<Word>(SECTOR_WORDS, _ => 0)
  {
  }

  /** The first sector differs, and no error is reported. */
  lemma EarlierMismatchIsMissed() returns (s: Rw)
    ensures Searching(s) && NoErrors(s) && s.command == WriteCheck && s.count == Wanted(s) == 2 * SECTOR_WORDS
    ensures SectorDiffers(s, 0)
    ensures NoErrors(Run(s)) && !Run(s).writeCheck && Run(s).count == 0
  {
    s := CheckOfTwoSectors();
    CheckIsProper();
    FirstDiffers(s.memory);
    SecondAgrees(s.memory);
    hide Run, Differs, Searching, NoErrors, FirstWord, Wanted, Found, Counted, Sectors, CheckOfTwoSectors;
    EndsWell(s);
    WriteCheckEffect(s);
  }

  // ---- one command after another ------------------------------------------

  predicate SameDrive(s: Rw, t: Rw) {
    && t.cylinder == s.cylinder && t.head == s.head && t.ready == s.ready && t.protected == s.protected
  }

  lemma TransferKeepsDrive(s: Rw)
    requires Valid(s) && s.count > 0
    ensures SameDrive(s, TransferSector(s))
  {
    StoreWordsKeeps(MoveWords(s), DmaIn(s.memory, s.address, Chunk(s), SECTOR_WORDS), SectorUnderHead(s));
  }

  lemma PassKeepsDrive(s: Rw)
    requires Proper(s)
    ensures SameDrive(s, Pass(s)) && Valid(Pass(s))
  {
    if s.state == Disk && s.ready {
      PassProgress(s);
      hide TransferSector;
      TransferKeepsDrive(s);
      if s.command != ReadDataWithoutHeaderCheck && OnTrack(s.cylinder, s.head, s.da) {
        SearchProgress(s);
        TransferKeepsDrive(ReadHeader(s));
      }
    }
  }

  lemma {:induction false} RunKeepsDrive(s: Rw)
    requires Proper(s)
    ensures SameDrive(s, Run(s)) && Valid(Run(s))
    decreases Phase(s.state), s.count, Remaining(s)
  {
    if s.state != Done {
      PassKeepsDrive(s);
      if s.state == Disk {
        PassProgress(s);
      }
      RunKeepsDrive(Pass(s));
    }
  }

  /** The same sectors, as a command of another kind given to the drive as s left it. */
  function Again(s: Rw, command: Command, address: nat, memory: seq<Word>): Rw
    requires Proper(s)
  {
    Run(s).(command := command, state := Init, da := s.da, count := s.count, address := address, memory := memory)
  }

  lemma AgainSearches(s: Rw, command: Command, address: nat, memory: seq<Word>)
    requires Searching(s) && command != ReadDataWithoutHeaderCheck && address % 2 == 0
    ensures Proper(Again(s, command, address, memory))
    ensures var t := ClearErrors(Again(s, command, address, memory)).(state := Disk);
            && Searching(t) && NoErrors(t) && t.command == command
            && t.memory == memory && t.address == address && t.file == Run(s).file && t.count == s.count
            && FirstWord(t) == FirstWord(s) && Wanted(t) == Wanted(s)
            && Found(t) == Existing(|memory|, address, Wanted(s))
            && Run(Again(s, command, address, memory)) == Run(t)
  {
    RunKeepsDrive(s);
  }

  /** WRITE DATA followed by READ DATA of the same sectors returns the words written. */
  lemma WriteThenRead(s: Rw, address: nat, memory: seq<Word>)
    requires Searching(s) && NoErrors(s) && s.command == WriteData && !s.protected
    requires s.count == Wanted(s) == Found(s)
    requires address % 2 == 0 && Existing(|memory|, address, s.count) == s.count
    ensures Proper(Again(s, ReadData, address, memory))
    ensures var r := Run(Again(s, ReadData, address, memory));
            && NoErrors(r) && r.count == 0 && s.address / 2 + s.count <= |s.memory|
            && r.memory == DmaOut(memory, address, s.memory[s.address / 2..s.address / 2 + s.count])
  {
    AgainSearches(s, ReadData, address, memory);
    var t := ClearErrors(Again(s, ReadData, address, memory)).(state := Disk);
    hide Run, FirstWord, Wanted, Found, NoErrors, Searching;
    EndsWell(t);
    ReadDataEffect(t);
    WordsComeBack(s);
  }

  lemma StoredInside(s: Rw, i: nat)
    requires Searching(s) && Wanted(s) == Found(s)
    ensures s.address / 2 + Wanted(s) <= |s.memory|
    ensures i < SECTOR_WORDS * Sectors(Wanted(s)) ==>
              Stored(s, FirstWord(s) + i) == WordIn(s.memory, s.address, Wanted(s), i)
  {
    hide FirstWord;
  }

  lemma FoundAtOnce(s: Rw)
    requires Searching(s) && Found(s) == Wanted(s)
    ensures Existing(|s.memory|, s.address, Chunk(s)) == Chunk(s)
  {
    ExistingSplit(|s.memory|, s.address, Chunk(s), Wanted(s));
  }

  lemma WordComesBack(s: Rw, i: nat)
    requires Searching(s) && NoErrors(s) && s.command == WriteData && !s.protected
    requires Wanted(s) == Found(s) && i < SECTOR_WORDS * Sectors(Wanted(s))
    ensures WordSeen(Run(s).file, FirstWord(s) + i) == WordIn(s.memory, s.address, Wanted(s), i)
  {
    hide Run, WordAt, Stored, FirstWord, Wanted, Found;
    WriteDataEffect(s, FirstWord(s) + i);
    WriteClearsFailure(s);
    FoundAtOnce(s);
    StoredInside(s, i);
  }

  lemma WordsComeBack(s: Rw)
    requires Searching(s) && NoErrors(s) && s.command == WriteData && !s.protected
    requires Wanted(s) == Found(s)
    ensures s.address / 2 + Wanted(s) <= |s.memory|
    ensures WordsSeen(Run(s).file, FirstWord(s), Wanted(s)) == s.memory[s.address / 2..s.address / 2 + Wanted(s)]
  {
    hide Run, WordAt, FirstWord, Wanted, Found, WordIn, NoErrors;
    var n := Wanted(s);
    var words := WordsSeen(Run(s).file, FirstWord(s), n);
    forall i | 0 <= i < n ensures words[i] == WordIn(s.memory, s.address, n, i) {
      WordComesBack(s, i);
    }
    StoredInside(s, 0);
    WordsInOrder(words, s.memory, s.address, n);
  }

  lemma WordsOfSector(words: seq<Word>, memory: seq<Word>, address: nat, n: nat, k: nat)
    requires |words| == SECTOR_WORDS && SECTOR_WORDS * k <= n
    requires forall i | 0 <= i < SECTOR_WORDS :: words[i] == WordIn(memory, address, n, SECTOR_WORDS * k + i)
    ensures words == DmaIn(memory, address + 2 * SECTOR_WORDS * k, n - SECTOR_WORDS * k, SECTOR_WORDS)
  {
  }

  /** Every sector a write covers agrees with host memory, zero-padded. */
  lemma SectorComesBack(s: Rw, k: nat)
    requires Searching(s) && NoErrors(s) && s.command == WriteData && !s.protected
    requires Wanted(s) == Found(s) && SECTOR_WORDS * k < Wanted(s)
    ensures !Differs(Run(s).file, FirstWord(s), s.memory, s.address, Wanted(s), k)
  {
    hide Run, WordAt, FirstWord, Wanted, Found, WordIn, NoErrors;
    var n := Wanted(s);
    var image := WordsSeen(Run(s).file, FirstWord(s) + SECTOR_WORDS * k, SECTOR_WORDS);
    forall i | 0 <= i < SECTOR_WORDS
      ensures image[i] == WordIn(s.memory, s.address, n, SECTOR_WORDS * k + i)
    {
      WordComesBack(s, SECTOR_WORDS * k + i);
    }
    WordsOfSector(image, s.memory, s.address, n, k);
  }

  lemma LastSectorAgrees(s: Rw)
    requires Searching(s) && NoErrors(s) && s.command == WriteData && !s.protected
    requires Wanted(s) == Found(s)
    ensures var k := Sectors(Wanted(s)) - 1;
            && k >= 0 && SECTOR_WORDS * k <= Wanted(s)
            && !Differs(Run(s).file, FirstWord(s), s.memory, s.address, Wanted(s), k)
  {
    assert Wanted(s) > 0;
    hide Run, FirstWord, Wanted, Found, NoErrors, Differs;
    SectorComesBack(s, Sectors(Wanted(s)) - 1);
  }

  lemma CheckAgrees(s: Rw, t: Rw)
    requires Searching(s) && NoErrors(s) && s.command == WriteData && !s.protected && Wanted(s) == Found(s)
    requires Searching(t) && NoErrors(t) && t.command == WriteCheck && Wanted(t) == Found(t) == t.count
    requires t.memory == s.memory && t.address == s.address && t.file == Run(s).file
    requires FirstWord(t) == FirstWord(s) && Wanted(t) == Wanted(s)
    ensures NoErrors(Run(t)) && !Run(t).writeCheck && Run(t).count == 0 && Run(t).file.data == t.file.data
  {
    hide Run, FirstWord, Wanted, Found, Differs, NoErrors, Sectors;
    EndsWell(t);
    WriteCheckEffect(t);
    LastSectorAgrees(s);
  }

  /** WRITE DATA followed by WRITE CHECK with the same arguments reports no error. */
  lemma WriteThenCheck(s: Rw)
    requires Searching(s) && NoErrors(s) && s.command == WriteData && !s.protected
    requires s.count == Wanted(s) == Found(s)
    ensures Proper(Again(s, WriteCheck, s.address, s.memory))
    ensures var r := Run(Again(s, WriteCheck, s.address, s.memory));
            NoErrors(r) && !r.writeCheck && r.count == 0 && r.file.data == Run(s).file.data
  {
    AgainSearches(s, WriteCheck, s.address, s.memory);
    hide Run, FirstWord, Wanted, NoErrors, Searching, Again;
    CheckAgrees(s, ClearErrors(Again(s, WriteCheck, s.address, s.memory)).(state := Disk));
  }
}
