/** What the RK11 commands amount to: a copy between consecutive sectors of the
    image and host memory, cut off at the end of the disk or of memory. */
module Rk11Commands {
  import opened Words
  import opened HostMemory
  import opened ImageOfWords
  import opened StorageImage
  import opened Rk11Transfer

  /** Everything of the next state but the data moved, when the DMA works ... */
  lemma StepDone(s: Rk)
    requires Going(s) && Plain(s)
    requires var n := Chunk(s.request, s.left); Existing(|s.memory|, s.address, n) == n
    ensures var t := Step(s); var n := Chunk(s.request, s.left);
            && t.request == s.request && t.present == s.present && t.until == s.until - 1
            && t.left == s.left - n && t.address == s.address + 2 * n && t.place == NextPlace(s.place)
            && |t.memory| == |s.memory| && !t.abort
            && (s.request.function_ != WriteCheck ==> t.errors == s.errors)
            && t.errors.(wce := false, err := false) == s.errors.(wce := false, err := false)
  {
    hide WordsSeen, AfterReadWords, WriteBytes, BytesOf, DmaIn, Existing;
  }

  /** ... and when it times out. */
  lemma StepFails(s: Rk)
    requires Going(s) && Plain(s)
    requires var n := Chunk(s.request, s.left); Existing(|s.memory|, s.address, n) < n
    ensures var t := Step(s); var n := Chunk(s.request, s.left);
            && t.left == s.left - n && t.address == s.address + 2 * n && t.place == NextPlace(s.place)
            && t.errors == s.errors.(nxm := true, he := true, err := true) && t.abort
            && (s.request.function_ == Function.Write ==> t.file == s.file)
  {
  }

  /** The next sector of the disk has the next words of the image. */
  lemma SectorFollows(s: Rk)
    requires Going(s) && Plain(s) && s.left > SECTOR_WORDS && Linear(s.place) + 1 < DISK_SECTORS
    requires Existing(|s.memory|, s.address, SECTOR_WORDS) == SECTOR_WORDS
    ensures var t := Step(s);
            && Going(t) && Plain(t) && t.request == s.request
            && t.left == s.left - SECTOR_WORDS && t.address == s.address + 2 * SECTOR_WORDS
            && Linear(t.place) == Linear(s.place) + 1 && FirstWord(t) == FirstWord(s) + SECTOR_WORDS
            && Wanted(t) == Wanted(s) - SECTOR_WORDS
            && Found(t) == Found(s) - SECTOR_WORDS && Counted(t) == Counted(s) - SECTOR_WORDS
            && Sectors(Counted(t)) == Sectors(Counted(s)) - 1
  {
    hide Step, Sectors, Counted;
    FoundFollows(s);
    hide Linear, Wanted, Existing, Found;
    CountFollows(s);
    SectorsFollow(Counted(Step(s)));
  }

  lemma FoundFollows(s: Rk)
    requires Going(s) && Plain(s) && s.left > SECTOR_WORDS && Linear(s.place) + 1 < DISK_SECTORS
    requires Existing(|s.memory|, s.address, SECTOR_WORDS) == SECTOR_WORDS
    ensures var t := Step(s);
            && Going(t) && Plain(t) && t.request == s.request && t.left == s.left - SECTOR_WORDS
            && t.address == s.address + 2 * SECTOR_WORDS
            && Linear(t.place) == Linear(s.place) + 1 && FirstWord(t) == FirstWord(s) + SECTOR_WORDS
            && Wanted(t) == Wanted(s) - SECTOR_WORDS && Found(t) == Found(s) - SECTOR_WORDS
  {
    hide Step;
    PlaceFollows(s);
    ExistingSplit(|s.memory|, s.address, SECTOR_WORDS, Wanted(s));
    hide Linear, Wanted, Existing;
  }

  lemma CountFollows(s: Rk)
    requires Going(s) && Going(Step(s)) && Step(s).left == s.left - SECTOR_WORDS
    requires Wanted(Step(s)) == Wanted(s) - SECTOR_WORDS && Found(Step(s)) == Found(s) - SECTOR_WORDS
    ensures Counted(Step(s)) == Counted(s) - SECTOR_WORDS
  {
    hide Step, Linear, Wanted, Existing, Found;
    QuotientIs(Found(s), SECTOR_WORDS, Found(Step(s)) / SECTOR_WORDS + 1, Found(Step(s)) % SECTOR_WORDS);
  }

  lemma SectorsFollow(n: nat)
    ensures Sectors(n + SECTOR_WORDS) == Sectors(n) + 1
  {
  }

  lemma PlaceFollows(s: Rk)
    requires Going(s) && Plain(s) && s.left > SECTOR_WORDS && Linear(s.place) + 1 < DISK_SECTORS
    requires Existing(|s.memory|, s.address, SECTOR_WORDS) == SECTOR_WORDS
    ensures var t := Step(s);
            && Going(t) && Plain(t) && t.request == s.request && |t.memory| == |s.memory|
            && t.left == s.left - SECTOR_WORDS && t.address == s.address + 2 * SECTOR_WORDS
            && Linear(t.place) == Linear(s.place) + 1 && FirstWord(t) == FirstWord(s) + SECTOR_WORDS
            && Wanted(t) == Wanted(s) - SECTOR_WORDS
  {
    hide Step, Existing;
    StepDone(s);
    NextPlaceIsNextSector(s.place);
    hide NextPlace;
  }

  /** t is the end of the command s: it went over the sectors from the first one on,
      until all words were moved or memory or the disk came to an end. */
  predicate EndOf(s: Rk, t: Rk)
    requires Going(s)
  {
    var missing := Found(s) < Wanted(s);
    var overrun := !missing && Wanted(s) < s.left;
    && t.left == s.left - Counted(s)
    && t.address == s.address + 2 * Counted(s)
    && Linear(t.place) == Linear(s.place) + Sectors(Counted(s))
    && (t.errors.nxm <==> missing)
    && (t.errors.nxc <==> overrun) && (t.errors.ovr <==> overrun)
    && (t.errors.he <==> missing || overrun) && (t.abort <==> missing || overrun)
    && (s.request.function_ != WriteCheck ==> (t.errors.err <==> t.errors.he))
    && !t.errors.nxs && !t.errors.nxd
  }

  /** No fault is reported yet, and no error but a mismatch. */
  predicate Clear(s: Rk) {
    && !s.errors.nxs && !s.errors.nxc && !s.errors.nxd && !s.errors.nxm && !s.errors.ovr && !s.errors.he
    && (s.errors.err ==> s.request.function_ == WriteCheck)
  }

  lemma EndsInMissingMemory(s: Rk)
    requires Going(s) && Plain(s) && Clear(s)
    requires var n := Chunk(s.request, s.left); Existing(|s.memory|, s.address, n) < n
    ensures EndOf(s, Step(s))
  {
    hide Step;
    StepFails(s);
    NextPlaceIsNextSector(s.place);
    ExistingSplit(|s.memory|, s.address, Chunk(s.request, s.left), Wanted(s));
  }

  lemma EndsWithSector(s: Rk)
    requires Going(s) && Plain(s) && Clear(s) && s.left <= SECTOR_WORDS
    requires Existing(|s.memory|, s.address, s.left) == s.left
    ensures EndOf(s, Step(s))
  {
    hide Step;
    StepDone(s);
    NextPlaceIsNextSector(s.place);
  }

  lemma EndsWithDisk(s: Rk)
    requires Going(s) && Plain(s) && Clear(s)
    requires s.left > SECTOR_WORDS && Linear(s.place) + 1 == DISK_SECTORS
    requires Existing(|s.memory|, s.address, SECTOR_WORDS) == SECTOR_WORDS
    ensures EndOf(s, Run(Step(s)))
    ensures Run(Step(s)) == SeekError(Step(s))
  {
    StepDone(s);
    NextPlaceIsNextSector(s.place);
    RunOffDisk(Step(s));
    hide Step;
  }

  lemma RunOffDisk(s: Rk)
    requires s.left > 0 && !s.abort && !Seekable(s) && s.until > 0
    ensures Run(s) == SeekError(s)
  {
  }

  /** A transfer that starts at an invalid address, or without a drive, moves nothing. */
  lemma InvalidStart(s: Rk)
    requires s.left > 0 && !s.abort && s.until > 0 && !Seekable(s)
    ensures var t := Run(s);
            && t.file == s.file && t.memory == s.memory && t.left == s.left && t.place == s.place
            && t.errors.he && t.errors.err && t.abort
            && (s.errors == Errors(false, false, false, false, false, false, false, false) ==>
                  && (t.errors.nxs <==> s.place.sector > 11)
                  && (t.errors.nxc <==> s.place.cylinder > 202) && (t.errors.ovr <==> t.errors.nxc)
                  && (t.errors.nxd <==> !s.present))
  {
    RunOffDisk(s);
  }

  /** The end of a plain command. */
  lemma {:induction false} CommandEnds(s: Rk)
    requires Going(s) && Plain(s) && Clear(s)
    ensures EndOf(s, Run(s))
    decreases s.left
  {
    hide Step;
    var n := Chunk(s.request, s.left);
    if Existing(|s.memory|, s.address, n) < n {
      EndsInMissingMemory(s);
      StepFails(s);
    } else if s.left <= SECTOR_WORDS {
      EndsWithSector(s);
      StepDone(s);
    } else if Linear(s.place) + 1 == DISK_SECTORS {
      NextPlaceIsNextSector(s.place);
      EndsWithDisk(s);
    } else {
      NextPlaceIsNextSector(s.place);
      StepDone(s);
      SectorFollows(s);
      CommandEnds(Step(s));
    }
  }

  // ---- Read ---------------------------------------------------------------

  /** What Read is to leave in memory. */
  function Copied(s: Rk): seq<Word>
    requires Going(s)
  {
    DmaOut(s.memory, s.address, WordsSeen(s.file, FirstWord(s), Wanted(s)))
  }

  /** The file after the sectors a reading command went over. */
  function Passed(s: Rk): File
    requires Going(s)
  {
    AfterReadWords(s.file, FirstWord(s), SECTOR_WORDS * Sectors(Counted(s)))
  }

  /** One sector of Read. */
  lemma SectorIsRead(s: Rk)
    requires Going(s) && Plain(s) && s.request.function_ == Function.Read
    ensures var t := Step(s); var n := Chunk(s.request, s.left);
            && t.file == AfterReadWords(s.file, FirstWord(s), SECTOR_WORDS)
            && t.memory == DmaOut(s.memory, s.address, WordsSeen(s.file, FirstWord(s), n))
            && (Existing(|s.memory|, s.address, n) == n ==> t.rkdb == WordSeen(s.file, FirstWord(s) + n - 1))
  {
    WordsSeenSplit(s.file, FirstWord(s), Chunk(s.request, s.left), SECTOR_WORDS);
  }

  lemma LastSectorCopies(s: Rk)
    requires Going(s) && Plain(s) && s.request.function_ == Function.Read
    requires var n := Chunk(s.request, s.left); Existing(|s.memory|, s.address, n) < n || n == Wanted(s)
    ensures Step(s).memory == Copied(s)
  {
    hide Step;
    SectorIsRead(s);
    NextPlaceIsNextSector(s.place);
    var c := Chunk(s.request, s.left);
    WordsSeenSplit(s.file, FirstWord(s), c, Wanted(s));
    DmaOutSplit(s.memory, s.address, WordsSeen(s.file, FirstWord(s), c),
                WordsSeen(s.file, FirstWord(s) + c, Wanted(s) - c));
  }

  lemma PassedAtOnce(s: Rk)
    requires Going(s) && Plain(s)
    requires var n := Chunk(s.request, s.left); Existing(|s.memory|, s.address, n) < n || n == Wanted(s)
    ensures Sectors(Counted(s)) == 1
  {
    NextPlaceIsNextSector(s.place);
    ExistingSplit(|s.memory|, s.address, Chunk(s.request, s.left), Wanted(s));
  }

  lemma CopySplit(memory: seq<Word>, address: nat, f: File, first: nat, n: nat)
    requires address % 2 == 0 && n >= SECTOR_WORDS
    ensures DmaOut(DmaOut(memory, address, WordsSeen(f, first, SECTOR_WORDS)), address + 2 * SECTOR_WORDS,
                   WordsSeen(AfterReadWords(f, first, SECTOR_WORDS), first + SECTOR_WORDS, n - SECTOR_WORDS))
            == DmaOut(memory, address, WordsSeen(f, first, n))
  {
    hide DmaOut, WordsSeen, AfterReadWords;
    var x := WordsSeen(f, first, SECTOR_WORDS);
    var y := WordsSeen(f, first + SECTOR_WORDS, n - SECTOR_WORDS);
    NothingLostBehindEnd(f, first, SECTOR_WORDS, first + SECTOR_WORDS, n - SECTOR_WORDS);
    WordsSeenSplit(f, first, SECTOR_WORDS, n);
    DmaOutSplit(memory, address, x, y);
  }

  lemma SectorThenRestCopies(s: Rk)
    requires Going(s) && Plain(s) && s.request.function_ == Function.Read
    requires s.left > SECTOR_WORDS && Linear(s.place) + 1 < DISK_SECTORS
    requires Existing(|s.memory|, s.address, SECTOR_WORDS) == SECTOR_WORDS
    ensures Going(Step(s)) && Copied(Step(s)) == Copied(s)
  {
    hide Step, DmaOut, WordsSeen, AfterReadWords, Existing;
    SectorFollows(s);
    SectorIsRead(s);
    assert Wanted(s) >= SECTOR_WORDS && Chunk(s.request, s.left) == SECTOR_WORDS;
    hide FirstWord, Wanted, Linear, Plain, Found, Counted, Sectors;
    CopySplit(s.memory, s.address, s.file, FirstWord(s), Wanted(s));
  }

  lemma PassedThenRest(s: Rk)
    requires Going(s) && Plain(s)
    requires s.left > SECTOR_WORDS && Linear(s.place) + 1 < DISK_SECTORS
    requires Existing(|s.memory|, s.address, SECTOR_WORDS) == SECTOR_WORDS
    requires Step(s).file == AfterReadWords(s.file, FirstWord(s), SECTOR_WORDS)
    ensures Going(Step(s)) && Passed(Step(s)) == Passed(s)
  {
    hide Step;
    SectorFollows(s);
    SomethingCounted(Step(s));
    hide FirstWord, Wanted, Counted;
    ReadsJoin(s.file, FirstWord(s), SECTOR_WORDS, SECTOR_WORDS * Sectors(Counted(Step(s))));
  }

  lemma SomethingCounted(s: Rk)
    requires Going(s)
    ensures Sectors(Counted(s)) > 0
  {
    NextPlaceIsNextSector(s.place);
  }

  /** Read copies the words asked for, and leaves the last one in RKDB; the stream
      has failed afterwards if a sector it went over ends behind the end of the file. */
  lemma {:induction false} ReadEffect(s: Rk)
    requires Going(s) && Plain(s) && NoErrors(s.errors) && s.request.function_ == Function.Read
    ensures Run(s).memory == Copied(s) && Run(s).file == Passed(s)
    ensures Found(s) == Wanted(s) ==> Run(s).rkdb == WordSeen(s.file, FirstWord(s) + Wanted(s) - 1)
    decreases s.left
  {
    hide Step, Copied, WordsSeen;
    SectorIsRead(s);
    NextPlaceIsNextSector(s.place);
    var n := Chunk(s.request, s.left);
    ExistingSplit(|s.memory|, s.address, n, Wanted(s));
    if Existing(|s.memory|, s.address, n) < n {
      StepFails(s);
      LastSectorCopies(s);
      PassedAtOnce(s);
    } else if s.left <= SECTOR_WORDS {
      StepDone(s);
      LastSectorCopies(s);
      PassedAtOnce(s);
    } else if Linear(s.place) + 1 == DISK_SECTORS {
      EndsWithDisk(s);
      LastSectorCopies(s);
      PassedAtOnce(s);
    } else {
      StepDone(s);
      SectorFollows(s);
      SectorThenRestCopies(s);
      PassedThenRest(s);
      ReadEffect(Step(s));
      WordBehind(s.file, FirstWord(s), FirstWord(s) + Wanted(s) - 1);
    }
  }

  lemma WordBehind(f: File, first: nat, k: nat)
    requires k >= first + SECTOR_WORDS
    ensures WordSeen(AfterReadWords(f, first, SECTOR_WORDS), k) == WordSeen(f, k)
  {
  }

  // ---- Write --------------------------------------------------------------

  /** The words that reach the disk: whole sectors when memory ends on the way. */
  function ToDisk(s: Rk): nat
    requires Going(s)
  {
    if Found(s) == Wanted(s) then Wanted(s) else SECTOR_WORDS * (Found(s) / SECTOR_WORDS)
  }

  /** What Write is to leave at a word of the image: the words from memory, zeros up
      to the end of their last sector, the old word elsewhere. */
  function Stored(s: Rk, q: nat): Word
    requires Going(s)
  {
    var first := FirstWord(s);
    if first <= q < first + SECTOR_WORDS * Sectors(ToDisk(s))
    then WordIn(s.memory, s.address, ToDisk(s), q - first)
    else WordAt(s.file.data, q)
  }

  lemma SectorIsStored(s: Rk)
    requires Going(s) && Plain(s) && s.request.function_ == Function.Write
    requires var n := Chunk(s.request, s.left); Existing(|s.memory|, s.address, n) == n
    ensures var t := Step(s);
            && t.memory == s.memory
            && t.file == AfterWrite(s.file, 2 * FirstWord(s),
                                    BytesOf(DmaIn(s.memory, s.address, Chunk(s.request, s.left), SECTOR_WORDS)))
  {
  }

  /** One sector of Write: its words, with zeros behind the last one. */
  lemma SectorIsWritten(s: Rk, q: nat)
    requires Going(s) && Plain(s) && s.request.function_ == Function.Write
    requires var n := Chunk(s.request, s.left); Existing(|s.memory|, s.address, n) == n
    ensures Step(s).memory == s.memory
    ensures WordAt(Step(s).file.data, q)
            == if FirstWord(s) <= q < FirstWord(s) + SECTOR_WORDS
               then WordIn(s.memory, s.address, Chunk(s.request, s.left), q - FirstWord(s))
               else WordAt(s.file.data, q)
  {
    SectorIsStored(s);
    hide Step, WriteBytes, WordAt;
    PaddedSectorStored(s.file.data, Step(s).file.data, FirstWord(s), SECTOR_WORDS,
                       s.memory, s.address, Chunk(s.request, s.left), q);
  }

  lemma ToDiskFollows(s: Rk)
    requires Going(s) && Plain(s) && s.left > SECTOR_WORDS && Linear(s.place) + 1 < DISK_SECTORS
    requires Existing(|s.memory|, s.address, SECTOR_WORDS) == SECTOR_WORDS
    ensures Going(Step(s)) && ToDisk(Step(s)) == ToDisk(s) - SECTOR_WORDS
    ensures Sectors(ToDisk(Step(s))) == Sectors(ToDisk(s)) - 1
  {
    SectorFollows(s);
    hide Step, Linear, Found, Wanted, Plain, Existing, Sectors;
    assert ToDisk(Step(s)) == ToDisk(s) - SECTOR_WORDS;
    SectorsFollow(ToDisk(Step(s)));
  }

  lemma SectorThenRestStores(s: Rk, q: nat)
    requires Going(s) && Plain(s) && s.request.function_ == Function.Write
    requires s.left > SECTOR_WORDS && Linear(s.place) + 1 < DISK_SECTORS
    requires Existing(|s.memory|, s.address, SECTOR_WORDS) == SECTOR_WORDS
    ensures Going(Step(s)) && Stored(Step(s), q) == Stored(s, q)
  {
    hide Step, WordAt, Sectors, Linear, FirstWord, Found, Wanted;
    SectorFollows(s);
    ToDiskFollows(s);
    SectorIsWritten(s, q);
    hide ToDisk;
    var first, n := FirstWord(s), ToDisk(Step(s));
    if q >= first + SECTOR_WORDS {
      WordInShift(s.memory, s.address, SECTOR_WORDS, n, q - first - SECTOR_WORDS);
    }
  }

  lemma LastSectorStores(s: Rk, q: nat)
    requires Going(s) && Plain(s) && s.request.function_ == Function.Write
    requires var n := Chunk(s.request, s.left); Existing(|s.memory|, s.address, n) == n == Wanted(s)
    ensures WordAt(Step(s).file.data, q) == Stored(s, q)
  {
    hide Step, WordAt;
    SectorIsWritten(s, q);
  }

  lemma NothingStores(s: Rk, q: nat)
    requires Going(s) && Plain(s)
    requires var n := Chunk(s.request, s.left); Existing(|s.memory|, s.address, n) < n
    ensures Stored(s, q) == WordAt(s.file.data, q)
  {
    NextPlaceIsNextSector(s.place);
    ExistingSplit(|s.memory|, s.address, Chunk(s.request, s.left), Wanted(s));
  }

  lemma {:induction false} WriteEffect(s: Rk, q: nat)
    requires Going(s) && Plain(s) && NoErrors(s.errors) && s.request.function_ == Function.Write
    ensures WordAt(Run(s).file.data, q) == Stored(s, q)
    decreases s.left
  {
    hide Step, Stored, WordAt;
    NextPlaceIsNextSector(s.place);
    var n := Chunk(s.request, s.left);
    if Existing(|s.memory|, s.address, n) < n {
      StepFails(s);
      NothingStores(s, q);
    } else if s.left <= SECTOR_WORDS {
      StepDone(s);
      LastSectorStores(s, q);
    } else if Linear(s.place) + 1 == DISK_SECTORS {
      EndsWithDisk(s);
      LastSectorStores(s, q);
    } else {
      StepDone(s);
      SectorFollows(s);
      SectorThenRestStores(s, q);
      WriteEffect(Step(s), q);
    }
  }

  /** The first sector that is written clears a failure of the stream. */
  lemma {:induction false} WriteClearsFailure(s: Rk)
    requires Going(s) && Plain(s) && NoErrors(s.errors) && s.request.function_ == Function.Write
    ensures var n := Chunk(s.request, s.left);
            Run(s).file.failed <==> s.file.failed && Existing(|s.memory|, s.address, n) < n
    decreases s.left
  {
    hide Step, WriteBytes;
    NextPlaceIsNextSector(s.place);
    var n := Chunk(s.request, s.left);
    if Existing(|s.memory|, s.address, n) < n {
      StepFails(s);
    } else {
      SectorIsStored(s);
      StepDone(s);
      if s.left > SECTOR_WORDS {
        if Linear(s.place) + 1 == DISK_SECTORS {
          EndsWithDisk(s);
        } else {
          SectorFollows(s);
          WriteClearsFailure(Step(s));
        }
      }
    }
  }

  /** Write followed by Read of the same sectors returns the words written. */
  lemma WriteThenRead(s: Rk, r: Rk)
    requires Going(s) && Plain(s) && NoErrors(s.errors) && s.request.function_ == Function.Write
    requires s.left == Wanted(s) == Found(s)
    requires Going(r) && Plain(r) && NoErrors(r.errors) && r.request.function_ == Function.Read
    requires r.file == Run(s).file && r.place == s.place && r.left == s.left && Found(r) == r.left
    ensures s.address / 2 + s.left <= |s.memory|
    ensures Run(r).memory == DmaOut(r.memory, r.address, s.memory[s.address / 2..s.address / 2 + s.left])
  {
    ReadEffect(r);
    WordsComeBack(s);
    hide Run, WordAt;
  }

  lemma WordComesBack(s: Rk, i: nat)
    requires Going(s) && Plain(s) && NoErrors(s.errors) && s.request.function_ == Function.Write
    requires Wanted(s) == Found(s) && i < Wanted(s)
    ensures WordSeen(Run(s).file, FirstWord(s) + i) == WordIn(s.memory, s.address, Wanted(s), i)
  {
    hide Run, WordAt;
    WriteEffect(s, FirstWord(s) + i);
    WriteClearsFailure(s);
    NextPlaceIsNextSector(s.place);
    ExistingSplit(|s.memory|, s.address, Chunk(s.request, s.left), Wanted(s));
  }

  lemma WordsComeBack(s: Rk)
    requires Going(s) && Plain(s) && NoErrors(s.errors) && s.request.function_ == Function.Write
    requires Wanted(s) == Found(s)
    ensures s.address / 2 + Wanted(s) <= |s.memory|
    ensures WordsSeen(Run(s).file, FirstWord(s), Wanted(s)) == s.memory[s.address / 2..s.address / 2 + Wanted(s)]
  {
    NextPlaceIsNextSector(s.place);
    hide Run, WordAt, FirstWord, WordIn, NoErrors;
    var n := Wanted(s);
    var words := WordsSeen(Run(s).file, FirstWord(s), n);
    forall i | 0 <= i < n ensures words[i] == WordIn(s.memory, s.address, n, i) {
      WordComesBack(s, i);
    }
    WordsInOrder(words, s.memory, s.address, n);
  }

  // ---- Write Check --------------------------------------------------------

  /** A word asked for that differs between the image and memory. */
  predicate Mismatch(s: Rk, i: nat) {
    WordSeen(s.file, FirstWord(s) + i) != WordIn(s.memory, s.address, i + 1, i)
  }

  /** One of the first n words differs. */
  ghost predicate AnyMismatch(s: Rk, n: int) { exists i: nat :: i < n && Mismatch(s, i) }

  lemma SectorIsChecked(s: Rk)
    requires Going(s) && Plain(s) && s.request.function_ == WriteCheck
    requires var n := Chunk(s.request, s.left); Existing(|s.memory|, s.address, n) == n
    ensures var t := Step(s); var mismatch := AnyMismatch(s, Chunk(s.request, s.left));
            && (t.errors.wce <==> s.errors.wce || mismatch) && (t.errors.err <==> s.errors.err || mismatch)
  {
    hide DmaIn, SectorWords, Mismatch, Existing, AfterReadWords;
    SectorDiffers(s, Chunk(s.request, s.left));
    hide AnyMismatch, Linear;
  }

  lemma WordDiffers(s: Rk, n: nat, i: nat)
    requires i < n <= SECTOR_WORDS
    ensures DmaIn(s.memory, s.address, n, SECTOR_WORDS)[i] != SectorWords(s.file, s.place)[i] <==> Mismatch(s, i)
  {
    hide DmaIn, SectorWords, WordSeen, WordIn, Linear;
    HostWord(s.memory, s.address, n, i);
    DiskWord(s.file, s.place, i);
  }

  lemma DiskWord(f: File, p: Place, i: nat)
    requires i < SECTOR_WORDS
    ensures SectorWords(f, p)[i] == WordSeen(f, WordPlace(p) + i)
  {
  }

  lemma HostWord(memory: seq<Word>, address: nat, n: nat, i: nat)
    requires i < n <= SECTOR_WORDS
    ensures DmaIn(memory, address, n, SECTOR_WORDS)[i] == WordIn(memory, address, i + 1, i)
  {
  }

  lemma SectorDiffers(s: Rk, n: nat)
    requires n <= SECTOR_WORDS
    ensures DmaIn(s.memory, s.address, n, SECTOR_WORDS)[..n] != SectorWords(s.file, s.place)[..n]
            <==> AnyMismatch(s, n)
  {
    hide DmaIn, SectorWords, Mismatch;
    var host := DmaIn(s.memory, s.address, n, SECTOR_WORDS);
    var disk := SectorWords(s.file, s.place);
    forall i: nat | i < n ensures host[i] != disk[i] <==> Mismatch(s, i) {
      WordDiffers(s, n, i);
    }
    if host[..n] != disk[..n] {
      var i: nat :| i < n && host[..n][i] != disk[..n][i];
    }
  }

  lemma CheckReads(s: Rk)
    requires Going(s) && s.until > 0 && s.request.function_ == WriteCheck
    ensures Step(s).file == AfterReadWords(s.file, FirstWord(s), SECTOR_WORDS) && Step(s).memory == s.memory
  {
  }

  lemma MismatchFollows(s: Rk, i: nat)
    requires Going(s) && Plain(s) && s.request.function_ == WriteCheck
    requires s.left > SECTOR_WORDS && Linear(s.place) + 1 < DISK_SECTORS
    requires Existing(|s.memory|, s.address, SECTOR_WORDS) == SECTOR_WORDS
    ensures Mismatch(Step(s), i) <==> Mismatch(s, SECTOR_WORDS + i)
  {
    SectorFollows(s);
    CheckReads(s);
    WordBehind(s.file, FirstWord(s), FirstWord(s) + SECTOR_WORDS + i);
    hide Step, WordSeen, FirstWord, Found, Wanted;
    WordInShift(s.memory, s.address, SECTOR_WORDS, i + 1, i);
  }

  /** A mismatch lies in the first sector or is one of the rest. */
  lemma MismatchSplit(s: Rk, n: nat)
    requires Going(s) && Plain(s) && s.request.function_ == WriteCheck && n >= SECTOR_WORDS
    requires s.left > SECTOR_WORDS && Linear(s.place) + 1 < DISK_SECTORS
    requires Existing(|s.memory|, s.address, SECTOR_WORDS) == SECTOR_WORDS
    ensures AnyMismatch(s, n) <==> AnyMismatch(s, SECTOR_WORDS) || AnyMismatch(Step(s), n - SECTOR_WORDS)
  {
    hide Step, Mismatch;
    if i: nat :| i < n && Mismatch(s, i) {
      if i >= SECTOR_WORDS {
        MismatchFollows(s, i - SECTOR_WORDS);
      }
    }
    if i: nat :| i < n - SECTOR_WORDS && Mismatch(Step(s), i) {
      MismatchFollows(s, i);
    }
  }

  /** What a Write Check without stop on error is to report: a word that differs, of
      those in the sectors that memory reaches, and besides in ERR the end of memory
      or of the disk. */
  ghost predicate Checked(s: Rk, e: Errors)
    requires Going(s)
  {
    && (e.wce <==> s.errors.wce || AnyMismatch(s, ToDisk(s)))
    && (e.err <==> s.errors.err || AnyMismatch(s, ToDisk(s)) || Found(s) < Wanted(s) || Wanted(s) < s.left)
  }

  lemma CheckedInMissingMemory(s: Rk)
    requires Going(s) && Plain(s)
    requires var n := Chunk(s.request, s.left); Existing(|s.memory|, s.address, n) < n
    ensures Checked(s, s.errors.(nxm := true, he := true, err := true))
  {
    NextPlaceIsNextSector(s.place);
    ExistingSplit(|s.memory|, s.address, Chunk(s.request, s.left), Wanted(s));
    assert ToDisk(s) == 0;
  }

  lemma CheckedAtOnce(s: Rk)
    requires Going(s) && Plain(s)
    requires var n := Chunk(s.request, s.left); Existing(|s.memory|, s.address, n) == n == Wanted(s)
    ensures ToDisk(s) == Wanted(s) == Found(s)
  {
  }

  /** After the last sector the loop is over, or runs off the disk. */
  lemma RunAfterLast(s: Rk)
    requires Going(s) && Plain(s)
    requires var n := Chunk(s.request, s.left); Existing(|s.memory|, s.address, n) == n == Wanted(s)
    requires s.request.function_ == WriteCheck
    ensures s.left <= SECTOR_WORDS || Linear(s.place) + 1 == DISK_SECTORS
    ensures s.left <= SECTOR_WORDS <==> s.left == Wanted(s)
    ensures Run(Step(s)) == if s.left <= SECTOR_WORDS then Step(s) else SeekError(Step(s))
  {
    hide Step, Existing, SeekError;
    StepDone(s);
    NextPlaceIsNextSector(s.place);
    if s.left > SECTOR_WORDS {
      RunOffDisk(Step(s));
    }
  }

  lemma CheckedLast(s: Rk)
    requires Going(s) && Plain(s) && s.request.function_ == WriteCheck
    requires var n := Chunk(s.request, s.left); Existing(|s.memory|, s.address, n) == n == Wanted(s)
    ensures s.left <= SECTOR_WORDS || Linear(s.place) + 1 == DISK_SECTORS
    ensures Checked(s, Run(Step(s)).errors)
    ensures Run(Step(s)).memory == Step(s).memory && Run(Step(s)).file == Step(s).file
  {
    hide Step, Mismatch, AnyMismatch, Existing, Run;
    RunAfterLast(s);
    SectorIsChecked(s);
    CheckedAtOnce(s);
    hide Linear, Found, ToDisk;
  }

  lemma CheckedThenRest(s: Rk, e: Errors)
    requires Going(s) && Plain(s) && s.request.function_ == WriteCheck
    requires s.left > SECTOR_WORDS && Linear(s.place) + 1 < DISK_SECTORS
    requires Existing(|s.memory|, s.address, SECTOR_WORDS) == SECTOR_WORDS
    ensures Going(Step(s)) && (Checked(Step(s), e) ==> Checked(s, e))
  {
    hide Step, Mismatch, AnyMismatch, Linear, Existing, Sectors, Counted, Chunk;
    SectorFollows(s);
    FirstAndRestChecked(s);
    ToDiskFollows(s);
    hide Found, Wanted, ToDisk;
  }

  lemma FirstAndRestChecked(s: Rk)
    requires Going(s) && Plain(s) && s.request.function_ == WriteCheck
    requires s.left > SECTOR_WORDS && Linear(s.place) + 1 < DISK_SECTORS
    requires Existing(|s.memory|, s.address, SECTOR_WORDS) == SECTOR_WORDS
    ensures var t := Step(s); var mismatch := AnyMismatch(s, SECTOR_WORDS);
            && (t.errors.wce <==> s.errors.wce || mismatch) && (t.errors.err <==> s.errors.err || mismatch)
            && Going(t) && (AnyMismatch(s, ToDisk(s)) <==> mismatch || AnyMismatch(t, ToDisk(t)))
  {
    hide Step, Mismatch, AnyMismatch, Found, Wanted, Sectors;
    SectorIsChecked(s);
    ToDiskFollows(s);
    hide ToDisk;
    MismatchSplit(s, ToDisk(s));
  }

  /** Write Check reports exactly whether some word it compared differs. */
  lemma {:induction false} WriteCheckEffect(s: Rk)
    requires Going(s) && Plain(s) && s.request.function_ == WriteCheck
    ensures Run(s).memory == s.memory && Run(s).file == Passed(s)
    ensures Checked(s, Run(s).errors)
    decreases s.left
  {
    hide Step, Checked, Passed;
    CheckReads(s);
    NextPlaceIsNextSector(s.place);
    var n := Chunk(s.request, s.left);
    if Existing(|s.memory|, s.address, n) < n {
      StepFails(s);
      CheckedInMissingMemory(s);
      CheckPasses(s);
    } else if s.left <= SECTOR_WORDS || Linear(s.place) + 1 == DISK_SECTORS {
      CheckedLast(s);
      CheckPasses(s);
    } else {
      StepDone(s);
      SectorFollows(s);
      CheckedThenRest(s, Run(Step(s)).errors);
      PassedThenRest(s);
      WriteCheckEffect(Step(s));
    }
  }

  lemma CheckPasses(s: Rk)
    requires Going(s) && Plain(s)
    requires var n := Chunk(s.request, s.left); Existing(|s.memory|, s.address, n) < n || n == Wanted(s)
    ensures Passed(s) == AfterReadWords(s.file, FirstWord(s), SECTOR_WORDS)
  {
    PassedAtOnce(s);
  }

  // ---- Write Check that stops on error ------------------------------------

  /** A Write Check with SSE. */
  predicate Stopping(s: Rk) {
    && Going(s) && !s.request.format && !s.request.iba && s.request.sse && s.request.function_ == WriteCheck
    && s.until > DISK_SECTORS - Linear(s.place)
  }

  /** The same command without SSE. */
  function WithoutStop(s: Rk): Rk { s.(request := s.request.(sse := false)) }

  lemma StopStep(s: Rk)
    requires Stopping(s)
    ensures Going(WithoutStop(s)) && Plain(WithoutStop(s))
    ensures var u, n := Step(WithoutStop(s)), Chunk(s.request, s.left);
            Step(s) == u.(request := s.request,
                          abort := u.abort || (Existing(|s.memory|, s.address, n) == n && u.errors.wce))
  {
    hide WordsSeen, AfterReadWords, DmaIn, Existing, NextPlace;
  }

  /** The first of the words compared that differs. */
  ghost predicate FirstMismatch(s: Rk, i: nat)
    requires Going(s)
  {
    i < ToDisk(s) && Mismatch(s, i) && forall j: nat :: j < i ==> !Mismatch(s, j)
  }

  /** t is the state in which the command s stops after k sectors. */
  predicate StoppedAfter(s: Rk, k: nat, t: Rk) {
    var n := if SECTOR_WORDS * k < s.left then SECTOR_WORDS * k else s.left;
    && t.abort && t.errors == s.errors.(wce := true, err := t.errors.err)
    && t.left == s.left - n && t.address == s.address + 2 * n && Linear(t.place) == Linear(s.place) + k
    && t.memory == s.memory && t.file == AfterReadWords(s.file, FirstWord(s), SECTOR_WORDS * k)
  }

  /** With a mismatch in the first sector, or WCE set before, the command stops there. */
  lemma StopsAtOnce(s: Rk)
    requires Stopping(s)
    requires var n := Chunk(s.request, s.left);
             Existing(|s.memory|, s.address, n) == n && (s.errors.wce || AnyMismatch(s, n))
    ensures StoppedAfter(s, 1, Run(s))
    ensures Run(s).errors.err <==> s.errors.err || AnyMismatch(s, Chunk(s.request, s.left))
  {
    hide Step, AnyMismatch, Existing;
    StopStep(s);
    var u := WithoutStop(s);
    StepDone(u);
    CheckReads(u);
    SectorIsChecked(u);
    SameMismatches(s, Chunk(s.request, s.left));
    NextPlaceIsNextSector(s.place);
    assert Run(s) == Run(Step(s)) == Step(s);
  }

  lemma SameMismatches(s: Rk, n: int)
    ensures AnyMismatch(s, n) <==> AnyMismatch(WithoutStop(s), n)
  {
    hide WordSeen, WordIn;
    assert forall i: nat :: Mismatch(s, i) <==> Mismatch(WithoutStop(s), i);
  }

  /** Without one it goes on. */
  lemma GoesOn(s: Rk)
    requires Stopping(s) && !s.errors.wce && s.left > SECTOR_WORDS && Linear(s.place) + 1 < DISK_SECTORS
    requires Existing(|s.memory|, s.address, SECTOR_WORDS) == SECTOR_WORDS && !AnyMismatch(s, SECTOR_WORDS)
    ensures Stopping(Step(s)) && WithoutStop(Step(s)) == Step(WithoutStop(s)) && Step(s).errors == s.errors
    ensures Run(s) == Run(Step(s))
  {
    hide Step, AnyMismatch, Existing;
    StopStep(s);
    var u := WithoutStop(s);
    StepDone(u);
    SectorIsChecked(u);
    SameMismatches(s, SECTOR_WORDS);
    SectorFollows(u);
  }

  lemma FirstSectorReached(s: Rk)
    requires Stopping(s) && ToDisk(s) > 0
    ensures var n := Chunk(s.request, s.left);
            && Existing(|s.memory|, s.address, n) == n && n <= Wanted(s)
            && (n < Wanted(s) ==> n == SECTOR_WORDS && s.left > n && Linear(s.place) + 1 < DISK_SECTORS)
  {
    NextPlaceIsNextSector(s.place);
    ExistingSplit(|s.memory|, s.address, Chunk(s.request, s.left), Wanted(s));
  }

  lemma MismatchesFollow(s: Rk, j: nat)
    requires Stopping(s) && !s.errors.wce && s.left > SECTOR_WORDS && Linear(s.place) + 1 < DISK_SECTORS
    requires Existing(|s.memory|, s.address, SECTOR_WORDS) == SECTOR_WORDS && !AnyMismatch(s, SECTOR_WORDS)
    ensures Stopping(Step(s)) && ToDisk(Step(s)) == ToDisk(s) - SECTOR_WORDS
    ensures Mismatch(Step(s), j) <==> Mismatch(s, SECTOR_WORDS + j)
  {
    hide AnyMismatch, Existing, Linear, Step;
    GoesOn(s);
    StopStep(s);
    var u := WithoutStop(s);
    MismatchFollows(u, j);
    ToDiskFollows(u);
    hide WordSeen, WordIn;
  }

  lemma StoppedLater(s: Rk, k: nat, t: Rk)
    requires Stopping(s) && !s.errors.wce && s.left > SECTOR_WORDS && Linear(s.place) + 1 < DISK_SECTORS
    requires Existing(|s.memory|, s.address, SECTOR_WORDS) == SECTOR_WORDS && !AnyMismatch(s, SECTOR_WORDS)
    requires k > 0 && StoppedAfter(Step(s), k, t)
    ensures StoppedAfter(s, k + 1, t)
  {
    hide AnyMismatch, Existing, Linear, Step;
    GoesOn(s);
    var u := WithoutStop(s);
    SectorFollows(u);
    CheckReads(u);
    ReadsJoin(s.file, FirstWord(s), SECTOR_WORDS, SECTOR_WORDS * k);
    hide AfterReadWords;
  }

  /** It stops with the first sector that holds a word that differs. */
  lemma {:induction false} StopsAtMismatch(s: Rk, i: nat)
    requires Stopping(s) && !s.errors.wce && FirstMismatch(s, i)
    ensures StoppedAfter(s, i / SECTOR_WORDS + 1, Run(s)) && Run(s).errors.err
    decreases s.left
  {
    hide Step, Mismatch, StoppedAfter, Run;
    FirstSectorReached(s);
    hide ToDisk, Existing, Linear;
    if i < Chunk(s.request, s.left) {
      StopsAtOnce(s);
    } else {
      GoesOn(s);
      var t := Step(s);
      MismatchesFollow(s, i - SECTOR_WORDS);
      forall j: nat | j < i - SECTOR_WORDS ensures !Mismatch(t, j) {
        MismatchesFollow(s, j);
      }
      StopLess(s);
      StopsAtMismatch(t, i - SECTOR_WORDS);
      StoppedLater(s, (i - SECTOR_WORDS) / SECTOR_WORDS + 1, Run(t));
    }
  }

  lemma StopLess(s: Rk)
    requires Stopping(s)
    ensures Step(s).left < s.left
  {
  }

  lemma RunAborts(s: Rk)
    requires s.abort
    ensures Run(s) == s
  {
  }

  lemma ThroughInMissingMemory(s: Rk)
    requires Stopping(s)
    requires var n := Chunk(s.request, s.left); Existing(|s.memory|, s.address, n) < n
    ensures Run(s) == Run(WithoutStop(s)).(request := s.request)
  {
    hide Step, Existing;
    StopStep(s);
    StepFails(WithoutStop(s));
    RunAborts(Step(s));
    RunAborts(Step(WithoutStop(s)));
  }

  lemma ThroughLast(s: Rk)
    requires Stopping(s) && !s.errors.wce && (s.left <= SECTOR_WORDS || Linear(s.place) + 1 == DISK_SECTORS)
    requires var n := Chunk(s.request, s.left);
             Existing(|s.memory|, s.address, n) == n && !AnyMismatch(s, n)
    ensures Run(s) == Run(WithoutStop(s)).(request := s.request)
  {
    hide Step, Existing, AnyMismatch;
    StopStep(s);
    var u := WithoutStop(s);
    StepDone(u);
    SectorIsChecked(u);
    SameMismatches(s, Chunk(s.request, s.left));
    NextPlaceIsNextSector(s.place);
    if s.left > SECTOR_WORDS {
      RunOffDisk(Step(s));
      RunOffDisk(Step(u));
    }
  }

  lemma NothingInRest(s: Rk)
    requires Stopping(s) && !s.errors.wce && s.left > SECTOR_WORDS && Linear(s.place) + 1 < DISK_SECTORS
    requires Existing(|s.memory|, s.address, SECTOR_WORDS) == SECTOR_WORDS && !AnyMismatch(s, ToDisk(s))
    ensures ToDisk(s) >= SECTOR_WORDS && !AnyMismatch(s, SECTOR_WORDS)
    ensures Stopping(Step(s)) && !AnyMismatch(Step(s), ToDisk(Step(s)))
  {
    hide Step, Mismatch, Existing, Linear;
    var u := WithoutStop(s);
    SectorFollows(u);
    ToDiskFollows(u);
    hide ToDisk;
    assert !AnyMismatch(s, SECTOR_WORDS);
    GoesOn(s);
    var t := Step(s);
    forall j: nat | j < ToDisk(t) ensures !Mismatch(t, j) {
      MismatchesFollow(s, j);
    }
  }

  /** Without a mismatch it runs as it would without SSE. */
  lemma {:induction false} RunsThrough(s: Rk)
    requires Stopping(s) && !s.errors.wce && !AnyMismatch(s, ToDisk(s))
    ensures Run(s) == Run(WithoutStop(s)).(request := s.request)
    decreases s.left
  {
    hide Step, AnyMismatch, Existing, Mismatch;
    var n := Chunk(s.request, s.left);
    if Existing(|s.memory|, s.address, n) < n {
      ThroughInMissingMemory(s);
    } else if s.left <= SECTOR_WORDS || Linear(s.place) + 1 == DISK_SECTORS {
      AllReached(s);
      ThroughLast(s);
    } else {
      NextPlaceIsNextSector(s.place);
      NothingInRest(s);
      GoesOn(s);
      StopLess(s);
      RunsThrough(Step(s));
    }
  }

  lemma AllReached(s: Rk)
    requires Stopping(s) && (s.left <= SECTOR_WORDS || Linear(s.place) + 1 == DISK_SECTORS)
    requires var n := Chunk(s.request, s.left); Existing(|s.memory|, s.address, n) == n
    ensures ToDisk(s) == Chunk(s.request, s.left)
  {
  }

  lemma {:induction false} FirstOf(s: Rk, n: nat) returns (i: nat)
    requires Going(s) && n <= ToDisk(s) && AnyMismatch(s, n)
    ensures FirstMismatch(s, i)
    decreases n
  {
    hide Mismatch, ToDisk;
    if AnyMismatch(s, n - 1) {
      i := FirstOf(s, n - 1);
    } else {
      i := n - 1;
    }
  }

  /** A whole Write Check with SSE: it stops with the first sector that holds a word that
      differs, and if there is none, goes on to the end of the words, of the disk or of
      memory.  With WCE set from before it stops with the first sector. */
  lemma StopEffect(s: Rk)
    requires Stopping(s) && Clear(s)
    ensures !s.errors.wce ==> forall i: nat :: FirstMismatch(s, i) ==>
              StoppedAfter(s, i / SECTOR_WORDS + 1, Run(s)) && Run(s).errors.err
    ensures !s.errors.wce && (forall i: nat :: !FirstMismatch(s, i)) ==>
              EndOf(s, Run(s)) && !Run(s).errors.wce && Run(s).memory == s.memory && Run(s).file == Passed(s)
    ensures s.errors.wce ==>
              if ToDisk(s) > 0 then StoppedAfter(s, 1, Run(s)) else EndOf(s, Run(s))
  {
    hide Step, Run, Mismatch, StoppedAfter, Passed;
    if s.errors.wce {
      if ToDisk(s) > 0 {
        FirstSectorReached(s);
        StopsAtOnce(s);
      } else {
        NothingReached(s);
        ThroughInMissingMemory(s);
        StopEnds(s);
      }
    } else {
      forall i: nat | FirstMismatch(s, i) ensures StoppedAfter(s, i / SECTOR_WORDS + 1, Run(s)) && Run(s).errors.err {
        StopsAtMismatch(s, i);
      }
      if AnyMismatch(s, ToDisk(s)) {
        var i := FirstOf(s, ToDisk(s));
      } else {
        RunsThrough(s);
        StopEnds(s);
      }
    }
  }

  lemma NothingReached(s: Rk)
    requires Stopping(s) && ToDisk(s) == 0
    ensures var n := Chunk(s.request, s.left); Existing(|s.memory|, s.address, n) < n
  {
    NextPlaceIsNextSector(s.place);
    ExistingSplit(|s.memory|, s.address, Chunk(s.request, s.left), Wanted(s));
  }

  lemma StopEnds(s: Rk)
    requires Stopping(s) && Clear(s) && Run(s) == Run(WithoutStop(s)).(request := s.request)
    ensures EndOf(s, Run(s)) && Run(s).memory == s.memory && Run(s).file == Passed(s)
    ensures Run(s).errors.wce <==> s.errors.wce || AnyMismatch(s, ToDisk(s))
  {
    hide Run, Mismatch, AnyMismatch, Existing, Step, Linear, Sectors;
    var u := WithoutStop(s);
    StopStep(s);
    CommandEnds(u);
    WriteCheckEffect(u);
    SameMismatches(s, ToDisk(s));
    SameCommand(s);
  }

  lemma SameCommand(s: Rk)
    requires Stopping(s)
    ensures var u := WithoutStop(s);
            Going(u) && Wanted(u) == Wanted(s) && Found(u) == Found(s) && Counted(u) == Counted(s)
            && ToDisk(u) == ToDisk(s) && Passed(u) == Passed(s)
  {
  }

  // ---- IBA ----------------------------------------------------------------

  /** With IBA every sector uses the one word of memory at the bus address. */
  predicate OnePlace(s: Rk) {
    && Going(s) && s.request.iba && !s.request.format && !s.request.sse
    && s.until > DISK_SECTORS - Linear(s.place)
  }

  predicate InMemory(s: Rk) { s.address / 2 < |s.memory| }

  /** t is the end of the IBA command s behind the end of memory: it ends in its first
      sector, and moves nothing. */
  predicate OnePlaceFailed(s: Rk, t: Rk)
    requires OnePlace(s)
  {
    && t.memory == s.memory && t.rkdb == s.rkdb && t.left == s.left - Chunk(s.request, s.left)
    && t.address == s.address && t.place == NextPlace(s.place)
    && t.errors == s.errors.(nxm := true, he := true, err := true) && t.abort
    && t.file == if s.request.function_ == Function.Read
                 then AfterReadWords(s.file, FirstWord(s), SECTOR_WORDS) else s.file
  }

  lemma OnePlaceMissing(s: Rk)
    requires OnePlace(s) && !InMemory(s) && s.request.function_ != WriteCheck
    ensures OnePlaceFailed(s, Run(s))
  {
    assert Step(s).memory == s.memory;
    assert Run(s) == Run(Step(s)) == Step(s);
  }

  lemma OnePlaceStep(s: Rk)
    requires OnePlace(s) && InMemory(s) && s.request.function_ != WriteCheck
    ensures var t := Step(s); var n := Chunk(s.request, s.left);
            && t.request == s.request && t.present && t.until == s.until - 1 && t.errors == s.errors && !t.abort
            && t.left == s.left - n && t.address == s.address && t.place == NextPlace(s.place)
            && |t.memory| == |s.memory|
            && (s.request.function_ == Function.Read ==>
                  var last := WordSeen(s.file, FirstWord(s) + n - 1);
                  && t.memory == s.memory[s.address / 2 := last] && t.rkdb == last
                  && t.file == AfterReadWords(s.file, FirstWord(s), SECTOR_WORDS))
            && (s.request.function_ == Function.Write ==>
                  && t.memory == s.memory
                  && t.file == AfterWrite(s.file, 2 * FirstWord(s), BytesOf(HostBuffer(true, s.memory, s.address, n))))
  {
    hide WriteBytes, BytesOf;
  }

  lemma OnePlaceFollows(s: Rk)
    requires OnePlace(s) && InMemory(s) && s.request.function_ != WriteCheck
    requires s.left > SECTOR_WORDS && Linear(s.place) + 1 < DISK_SECTORS
    ensures var t := Step(s);
            && OnePlace(t) && InMemory(t)
            && Wanted(t) == Wanted(s) - SECTOR_WORDS && FirstWord(t) == FirstWord(s) + SECTOR_WORDS
            && Sectors(Wanted(t)) == Sectors(Wanted(s)) - 1 && Linear(t.place) == Linear(s.place) + 1
  {
    hide Step;
    OnePlaceStep(s);
    NextPlaceIsNextSector(s.place);
  }

  /** t is the end of the IBA command s. */
  predicate OnePlaceEnd(s: Rk, t: Rk)
    requires Going(s)
  {
    && t.left == s.left - Wanted(s) && t.address == s.address
    && Linear(t.place) == Linear(s.place) + Sectors(Wanted(s))
    && (t.errors.nxc <==> Wanted(s) < s.left) && (t.errors.ovr <==> Wanted(s) < s.left)
    && (t.errors.he <==> Wanted(s) < s.left) && !t.errors.nxm
  }

  lemma OnePlaceLast(s: Rk)
    requires OnePlace(s) && InMemory(s) && s.request.function_ != WriteCheck && NoErrors(s.errors)
    requires s.left <= SECTOR_WORDS || Linear(s.place) + 1 == DISK_SECTORS
    ensures Chunk(s.request, s.left) == Wanted(s) && Sectors(Wanted(s)) == 1
    ensures OnePlaceEnd(s, Run(Step(s)))
    ensures Run(Step(s)).memory == Step(s).memory && Run(Step(s)).file == Step(s).file
            && Run(Step(s)).rkdb == Step(s).rkdb
  {
    OnePlaceStep(s);
    NextPlaceIsNextSector(s.place);
    if s.left > SECTOR_WORDS {
      RunOffDisk(Step(s));
    }
    hide Step;
  }

  /** A Read with IBA leaves in memory the last word of the last sector, and nothing
      else, if the bus address is in memory. */
  lemma {:induction false} OnePlaceRead(s: Rk)
    requires OnePlace(s) && s.request.function_ == Function.Read && NoErrors(s.errors)
    ensures InMemory(s) ==>
              var last := WordSeen(s.file, FirstWord(s) + Wanted(s) - 1);
              && Run(s).memory == s.memory[s.address / 2 := last] && Run(s).rkdb == last
              && OnePlaceEnd(s, Run(s))
    ensures !InMemory(s) ==> OnePlaceFailed(s, Run(s))
    decreases s.left
  {
    hide Step, WordSeen;
    if !InMemory(s) {
      OnePlaceMissing(s);
      return;
    }
    OnePlaceStep(s);
    if s.left <= SECTOR_WORDS || Linear(s.place) + 1 == DISK_SECTORS {
      OnePlaceLast(s);
    } else {
      NextPlaceIsNextSector(s.place);
      OnePlaceFollows(s);
      OnePlaceRead(Step(s));
      WordBehind(s.file, FirstWord(s), FirstWord(s) + Wanted(s) - 1);
    }
  }

  /** What a Write with IBA is to leave at a word of the image. */
  function Repeated(s: Rk, q: nat): Word
    requires OnePlace(s)
  {
    var first := FirstWord(s);
    if first <= q < first + SECTOR_WORDS * Sectors(Wanted(s))
    then RepeatedWord(s.memory, s.address, Wanted(s), q - first)
    else WordAt(s.file.data, q)
  }

  lemma OnePlaceStored(s: Rk, q: nat)
    requires OnePlace(s) && InMemory(s) && s.request.function_ == Function.Write
    ensures WordAt(Step(s).file.data, q)
            == if FirstWord(s) <= q < FirstWord(s) + SECTOR_WORDS
               then RepeatedWord(s.memory, s.address, Chunk(s.request, s.left), q - FirstWord(s))
               else WordAt(s.file.data, q)
  {
    hide Step, WriteBytes, WordAt;
    OnePlaceStep(s);
    WordsWritten(s.file.data, FirstWord(s), HostBuffer(true, s.memory, s.address, Chunk(s.request, s.left)), q);
  }

  /** A Write with IBA fills the sectors with the one word, zeros behind the last, if
      the bus address is in memory. */
  lemma {:induction false} OnePlaceWrite(s: Rk, q: nat)
    requires OnePlace(s) && s.request.function_ == Function.Write && NoErrors(s.errors)
    ensures InMemory(s) ==>
              && WordAt(Run(s).file.data, q) == Repeated(s, q)
              && OnePlaceEnd(s, Run(s)) && Run(s).memory == s.memory
    ensures !InMemory(s) ==> OnePlaceFailed(s, Run(s))
    decreases s.left
  {
    hide Step, WordAt;
    if !InMemory(s) {
      OnePlaceMissing(s);
      return;
    }
    OnePlaceStep(s);
    OnePlaceStored(s, q);
    if s.left <= SECTOR_WORDS || Linear(s.place) + 1 == DISK_SECTORS {
      OnePlaceLast(s);
    } else {
      NextPlaceIsNextSector(s.place);
      OnePlaceFollows(s);
      OnePlaceWrite(Step(s), q);
    }
  }

  // ---- FMT ----------------------------------------------------------------

  /** With FMT a Read delivers one header word a sector. */
  predicate ReadsHeaders(s: Rk) {
    && Going(s) && s.request.format && !s.request.iba && s.request.function_ == Function.Read
    && s.until > s.left && s.until > DISK_SECTORS - Linear(s.place)
  }

  function HeadersWanted(s: Rk): int {
    if s.left < DISK_SECTORS - Linear(s.place) then s.left else DISK_SECTORS - Linear(s.place)
  }

  /** The headers of n sectors from a linear sector on: the cylinder, five bits up. */
  function Headers(linear: nat, n: nat): (h: seq<Word>)
    ensures |h| == n
  {
    seq<Word>(n, i requires i >= 0 => FormatWord((linear + i) / 24))
  }

  lemma HeaderStep(s: Rk)
    requires ReadsHeaders(s)
    ensures var t := Step(s);
            && t.left == s.left - 1 && t.address == s.address + 2 && t.place == NextPlace(s.place)
            && t.request == s.request && t.present && t.until == s.until - 1 && t.file == s.file
            && t.memory == DmaOut(s.memory, s.address, [FormatWord(s.place.cylinder)])
            && t.rkdb == (if s.address / 2 < |s.memory| then FormatWord(s.place.cylinder) else s.rkdb)
            && (s.address / 2 < |s.memory| ==> !t.abort && t.errors == s.errors)
            && (s.address / 2 >= |s.memory| ==> t.abort && t.errors == s.errors.(nxm := true, he := true, err := true))
  {
    var words := ReadBuffer(true, s.file, s.place);
    assert words[..1] == [FormatWord(s.place.cylinder)];
  }

  lemma LinearCylinder(p: Place)
    requires OnDisk(p)
    ensures Linear(p) / 24 == p.cylinder
  {
    QuotientIs(Linear(p), 24, p.cylinder, p.surface * 12 + p.sector);
  }

  lemma HeadersSplit(linear: nat, n: nat)
    requires n > 0
    ensures Headers(linear, n) == [FormatWord(linear / 24)] + Headers(linear + 1, n - 1)
  {
    hide FormatWord;
    var all, rest := Headers(linear, n), Headers(linear + 1, n - 1);
    forall i | 0 <= i < n ensures all[i] == ([FormatWord(linear / 24)] + rest)[i] {
      if i > 0 {
        assert rest[i - 1] == FormatWord((linear + 1 + (i - 1)) / 24);
      }
    }
  }

  /** A Read with FMT leaves the headers of consecutive sectors in memory. */
  lemma {:induction false} HeadersRead(s: Rk)
    requires ReadsHeaders(s) && NoErrors(s.errors)
    ensures HeadersEnd(s, Run(s))
    decreases s.left
  {
    hide Step, Headers, FormatWord;
    HeaderStep(s);
    if s.left == 1 || s.address / 2 >= |s.memory| || Linear(s.place) + 1 == DISK_SECTORS {
      HeadersLast(s);
    } else {
      HeadersThenRest(s);
      HeadersRead(Step(s));
    }
  }

  /** t is the end of the command s that reads headers. */
  predicate HeadersEnd(s: Rk, t: Rk)
    requires ReadsHeaders(s)
  {
    var n: nat := HeadersWanted(s);
    var found := Existing(|s.memory|, s.address, n);
    && t.memory == DmaOut(s.memory, s.address, Headers(Linear(s.place), n)) && t.file == s.file
    && (t.errors.nxm <==> found < n)
    && (t.errors.nxc <==> found == n < s.left) && (t.errors.ovr <==> t.errors.nxc)
    && t.rkdb == (if found > 0 then FormatWord((Linear(s.place) + found - 1) / 24) else s.rkdb)
    && var gone := if found < n then found + 1 else n;
       t.left == s.left - gone && t.address == s.address + 2 * gone && Linear(t.place) == Linear(s.place) + gone
  }

  lemma OneHeader(s: Rk, n: nat)
    requires ReadsHeaders(s) && n > 0
    ensures var first := [FormatWord(s.place.cylinder)];
            && (s.address / 2 >= |s.memory| || n == 1 ==>
                  DmaOut(s.memory, s.address, Headers(Linear(s.place), n)) == DmaOut(s.memory, s.address, first))
            && DmaOut(s.memory, s.address, Headers(Linear(s.place), n))
               == DmaOut(DmaOut(s.memory, s.address, first), s.address + 2, Headers(Linear(s.place) + 1, n - 1))
  {
    hide FormatWord, Headers, Linear, DmaOut, Existing;
    LinearCylinder(s.place);
    HeadersSplit(Linear(s.place), n);
    var first, rest := [FormatWord(s.place.cylinder)], Headers(Linear(s.place) + 1, n - 1);
    DmaOutSplit(s.memory, s.address, first, rest);
    NoPlace(|s.memory|, s.address);
    if n == 1 {
      assert first + rest == first;
    }
  }

  lemma NoPlace(size: nat, address: nat)
    ensures Existing(size, address, 1) < 1 <==> address / 2 >= size
  {
  }

  lemma HeadersLast(s: Rk)
    requires ReadsHeaders(s) && NoErrors(s.errors)
    requires s.left == 1 || s.address / 2 >= |s.memory| || Linear(s.place) + 1 == DISK_SECTORS
    ensures HeadersEnd(s, Run(Step(s)))
  {
    HeaderStep(s);
    LinearCylinder(s.place);
    NextPlaceIsNextSector(s.place);
    OneHeader(s, HeadersWanted(s));
    if s.address / 2 < |s.memory| && s.left > 1 {
      RunOffDisk(Step(s));
    }
    hide Step, Headers, FormatWord, DmaOut;
  }

  lemma HeadersThenRest(s: Rk)
    requires ReadsHeaders(s) && NoErrors(s.errors)
    requires s.left > 1 && s.address / 2 < |s.memory| && Linear(s.place) + 1 < DISK_SECTORS
    ensures var t := Step(s);
            && ReadsHeaders(t) && NoErrors(t.errors) && t.left == s.left - 1 && !s.abort
            && forall u :: HeadersEnd(t, u) ==> HeadersEnd(s, u)
  {
    HeaderStep(s);
    NextPlaceIsNextSector(s.place);
    hide Step, Headers, FormatWord, DmaOut, HeadersEnd;
    forall u | HeadersEnd(Step(s), u) ensures HeadersEnd(s, u) {
      HeadersFollow(s, u);
    }
  }

  lemma HeadersFollow(s: Rk, u: Rk)
    requires ReadsHeaders(s) && NoErrors(s.errors)
    requires s.left > 1 && s.address / 2 < |s.memory| && Linear(s.place) + 1 < DISK_SECTORS
    requires ReadsHeaders(Step(s)) && HeadersEnd(Step(s), u)
    ensures HeadersEnd(s, u)
  {
    HeaderStep(s);
    LinearCylinder(s.place);
    NextPlaceIsNextSector(s.place);
    OneHeader(s, HeadersWanted(s));
    ExistingSplit(|s.memory|, s.address, 1, HeadersWanted(s));
    NoPlace(|s.memory|, s.address);
    hide Step, Headers, FormatWord, DmaOut, Existing, NextPlace, Linear;
  }

  // ---- the bits together --------------------------------------------------

  /** The same command without FMT, where that means nothing, and without SSE. */
  function Ignoring(s: Rk): Rk {
    var r := s.request;
    s.(request := Request(r.function_, r.format && r.function_ == Function.Read, r.iba,
                          r.sse && r.function_ == WriteCheck))
  }

  /** FMT matters to a Read and SSE to a Write Check only. */
  lemma {:induction false} BitsIgnored(s: Rk)
    ensures Ignoring(Run(s)) == Run(Ignoring(s)) && Run(s).request == s.request
    decreases s.until, if s.left <= 0 || s.abort then 0 else 1
  {
    if s.left > 0 && !s.abort {
      StepIgnores(s);
      hide Step;
      BitsIgnored(Step(s));
    }
  }

  lemma StepIgnores(s: Rk)
    requires s.left > 0
    ensures Ignoring(Step(s)) == Step(Ignoring(s)) && Step(s).request == s.request
    ensures Step(s).until < s.until || Step(s).abort
  {
    if s.until > 0 && Seekable(s) {
      var n := Chunk(s.request, s.left);
      assert Chunk(Ignoring(s).request, s.left) == n && Seekable(Ignoring(s));
      MoveIgnores(s, n);
      hide Move, Chunk, SeekError, Seekable, NextPlace;
    } else {
      hide Move, Chunk;
    }
  }

  lemma MoveIgnores(s: Rk, n: nat)
    requires 0 < n <= SECTOR_WORDS
    ensures Ignoring(Move(s, n)) == Move(Ignoring(s), n) && Moved(s, Move(s, n))
  {
    ReadIgnores(s, n);
    WriteIgnores(s, n);
    CheckIgnores(s, n);
    hide MoveRead, MoveWrite, MoveCheck, Moved;
  }

  lemma ReadIgnores(s: Rk, n: nat)
    requires 0 < n <= SECTOR_WORDS
    ensures Moved(s, MoveRead(s, n))
    ensures s.request.function_ == Function.Read ==> Ignoring(MoveRead(s, n)) == MoveRead(Ignoring(s), n)
  {
    hide ReadBuffer, ToMemory, TimesOut, AfterReadWords;
  }

  lemma WriteIgnores(s: Rk, n: nat)
    ensures Moved(s, MoveWrite(s, n))
    ensures s.request.function_ == Function.Write ==> Ignoring(MoveWrite(s, n)) == MoveWrite(Ignoring(s), n)
  {
    hide HostBuffer, TimesOut, WriteBytes, BytesOf;
  }

  lemma CheckIgnores(s: Rk, n: nat)
    requires 0 < n <= SECTOR_WORDS
    ensures Moved(s, MoveCheck(s, n))
    ensures s.request.function_ == WriteCheck ==> Ignoring(MoveCheck(s, n)) == MoveCheck(Ignoring(s), n)
  {
    hide HostBuffer, TimesOut, AfterReadWords, SectorWords;
  }

  /** What the move of a sector leaves to the loop. */
  predicate Moved(s: Rk, t: Rk) {
    && t.request == s.request && t.present == s.present && t.until == s.until
    && t.left == s.left && t.address == s.address && t.place == s.place
  }

  predicate HasWord(t: Rk, i: nat, w: Word) {
    t.address / 2 + i < |t.memory| && t.memory[t.address / 2 + i] == w
  }

  /** t is the command s without IBA, with memory that holds the word at the bus address
      of s as often as there are words left. */
  predicate Repeats(s: Rk, t: Rk) {
    && s.request.iba && s.request.function_ != Function.Read && InMemory(s)
    && t == s.(request := s.request.(iba := false), address := t.address, memory := t.memory)
    && forall i: nat | i < s.left :: HasWord(t, i, s.memory[s.address / 2])
  }

  /** A Write or Write Check with IBA, whatever the other bits say, does to disk and
      registers what it does without IBA on such a memory. */
  lemma {:induction false} OnePlaceRepeats(s: Rk, t: Rk)
    requires Repeats(s, t)
    ensures Repeats(Run(s), Run(t)) && Run(s).memory == s.memory && Run(s).address == s.address
    decreases s.until, if s.left <= 0 || s.abort then 0 else 1
  {
    if s.left > 0 && !s.abort {
      RepeatsStep(s, t);
      hide Step;
      OnePlaceRepeats(Step(s), Step(t));
    }
  }

  lemma RepeatedBuffer(s: Rk, t: Rk, n: nat)
    requires Repeats(s, t) && 0 < n <= s.left
    ensures HostBuffer(true, s.memory, s.address, n) == HostBuffer(false, t.memory, t.address, n)
    ensures Existing(|t.memory|, t.address, n) == n && Existing(|s.memory|, s.address, 1) == 1
  {
    var words, words' := HostBuffer(true, s.memory, s.address, n), HostBuffer(false, t.memory, t.address, n);
    forall i | 0 <= i < SECTOR_WORDS ensures words[i] == words'[i] {
      assert i < n ==> HasWord(t, i, s.memory[s.address / 2]);
    }
    assert HasWord(t, n - 1, s.memory[s.address / 2]);
  }

  /** The words behind the first n. */
  lemma WordsLeft(s: Rk, t: Rk, u: Rk, n: nat)
    requires Repeats(s, t) && 0 < n <= s.left
    requires u.memory == t.memory && u.address == t.address + 2 * n
    ensures forall i: nat | i < s.left - n :: HasWord(u, i, s.memory[s.address / 2])
  {
    forall i: nat | i < s.left - n ensures HasWord(u, i, s.memory[s.address / 2]) {
      assert HasWord(t, n + i, s.memory[s.address / 2]);
    }
  }

  lemma MoveRepeats(s: Rk, t: Rk, n: nat)
    requires Repeats(s, t) && 0 < n <= s.left && n <= SECTOR_WORDS
    ensures Move(s, n) == s.(file := Move(s, n).file, errors := Move(s, n).errors, abort := Move(s, n).abort)
    ensures Move(t, n) == t.(file := Move(s, n).file, errors := Move(s, n).errors, abort := Move(s, n).abort)
  {
    RepeatedBuffer(s, t, n);
    hide HostBuffer, Existing, Repeats, AfterReadWords, WriteBytes, BytesOf, WordsSeen;
    assert s.request.function_ != Function.Read && s.request.iba;
  }

  lemma RepeatsStep(s: Rk, t: Rk)
    requires Repeats(s, t) && s.left > 0 && !s.abort
    ensures Repeats(Step(s), Step(t)) && Step(s).memory == s.memory && Step(s).address == s.address
    ensures Step(s).until < s.until || Step(s).abort
  {
    hide HasWord;
    if s.until > 0 && Seekable(s) {
      var n := Chunk(s.request, s.left);
      assert Chunk(t.request, t.left) == n;
      MoveRepeats(s, t, n);
      hide Move, Chunk;
      var s', t' := Step(s), Step(t);
      assert t'.address == t.address + 2 * n && t'.memory == t.memory && s'.left == s.left - n;
      WordsLeft(s, t, t', n);
      assert t' == s'.(request := s'.request.(iba := false), address := t'.address, memory := t'.memory);
    } else {
      hide Move, Chunk;
      var s', t' := Step(s), Step(t);
      assert t' == s'.(request := s'.request.(iba := false), address := t'.address, memory := t'.memory);
      assert t'.address == t.address && t'.memory == t.memory && s'.left == s.left;
      forall i: nat | i < s'.left ensures HasWord(t', i, s.memory[s.address / 2]) {
        assert HasWord(t, i, s.memory[s.address / 2]);
        SameWords(t, t', i, s.memory[s.address / 2]);
      }
    }
  }

  lemma SameWords(t: Rk, u: Rk, i: nat, w: Word)
    requires t.memory == u.memory && t.address == u.address
    ensures HasWord(t, i, w) == HasWord(u, i, w)
  {
  }
}
