/** What the functions of the RX01 do for a controller that waits for transfer
    requests and for DONE. */
module Rx01Commands {
  import opened Words
  import opened StorageImage
  import opened Rx01Program

  // ---- the worker between two events --------------------------------------

  predicate Blocked(c: Cpu) { Complete(c) || c.thread == Waiting }

  /** The worker's rounds until it waits for the controller or has nothing to do:
      every program comes to such a point. */
  function RunWorker(c: Cpu): (d: Cpu)
    requires Valid(c)
    ensures Valid(d) && Blocked(d)
    decreases if Complete(c) then 0 else |c.program| - c.pc, if c.thread == Running then 1 else 0
  {
    WorkKeepsValid(c);
    if Blocked(c) then c
    else
      WorkProgress(c);
      RunWorker(Work(c))
  }

  lemma WorkProgress(c: Cpu)
    requires Valid(c) && !Blocked(c)
    ensures var d := Work(c);
            || Complete(d)
            || (d.program == c.program && d.pc == c.pc && c.thread == Running && d.thread == Waiting)
            || (d.program == c.program && d.pc == c.pc + 1 && d.thread == Running)
  {
  }

  /** The thread that works at a program that is complete has set DONE. */
  lemma CompleteIsDone(c: Cpu)
    requires Valid(c)
    ensures Complete(RunWorker(c)) ==> Idle(RunWorker(c))
  {
  }

  // ---- words through the port ---------------------------------------------

  function WriteAll(c: Cpu, words: seq<Word>): (d: Cpu)
    requires Valid(c)
    ensures Valid(d)
    decreases |words|
  {
    if words == [] then c
    else
      WriteKeepsValid(c, words[0]);
      WriteAll(WriteRxdb(c, words[0]), words[1..])
  }

  /** The state after n reads of RXDB, and the words read. */
  function ReadAll(c: Cpu, n: nat): (r: (Cpu, seq<Word>))
    requires Valid(c)
    ensures Valid(r.0) && |r.1| == n
    decreases n
  {
    if n == 0 then (c, [])
    else
      ReadKeepsValid(c);
      var (d, words) := ReadAll(ReadRxdb(c), n - 1);
      (d, [c.port.rxdb] + words)
  }

  function LowBytes(words: seq<Word>): (bytes: seq<Byte>)
    ensures |bytes| == |words|
    decreases |words|
  {
    if words == [] then [] else [words[0] % 0x100] + LowBytes(words[1..])
  }

  function AsWords(bytes: seq<Byte>): (words: seq<Word>)
    ensures |words| == |bytes|
    decreases |bytes|
  {
    if bytes == [] then [] else [bytes[0] as int] + AsWords(bytes[1..])
  }

  /** The worker waits in a transfer of `count` words by function f. */
  predicate Transferring(c: Cpu, f: Function, count: nat) {
    && Valid(c) && c.thread == Waiting && c.function_ == f && c.port.count == count && c.port.idx < count
  }

  function Transferred(c: Cpu): Cpu {
    EndTransfer(c.(port := c.port.(idx := c.port.count)))
  }

  /** Bytes arrive in the buffer in the order in which they are written. */
  lemma {:induction false} FillWrites(c: Cpu, words: seq<Word>)
    requires Transferring(c, FillBuffer, SECTOR_BYTES) && |words| == SECTOR_BYTES - c.port.idx
    ensures WriteAll(c, words)
            == Transferred(c.(box := c.box.(buffer :=
                 c.box.buffer[..c.port.idx] + LowBytes(words) + c.box.buffer[SECTOR_BYTES..])))
    decreases |words|
  {
    var d := WriteRxdb(c, words[0]);
    WriteKeepsValid(c, words[0]);
    var i := c.port.idx;
    assert d.box.buffer == c.box.buffer[i := words[0] % 0x100];
    assert d.box.buffer[..i + 1] == c.box.buffer[..i] + [words[0] % 0x100];
    assert d.box.buffer[SECTOR_BYTES..] == c.box.buffer[SECTOR_BYTES..];
    if |words| > 1 {
      FillWrites(d, words[1..]);
      assert d.box.buffer[..i + 1] + LowBytes(words[1..]) == c.box.buffer[..i] + LowBytes(words);
    } else {
      assert words[1..] == [] && LowBytes(words) == [words[0] % 0x100];
      assert d.box.buffer == c.box.buffer[..i] + LowBytes(words) + c.box.buffer[SECTOR_BYTES..];
    }
  }

  /** And leave it in that order. */
  lemma {:induction false} EmptyReads(c: Cpu, n: nat)
    requires Transferring(c, EmptyBuffer, SECTOR_BYTES) && n == SECTOR_BYTES - c.port.idx
    requires c.port.rxdb == c.box.buffer[c.port.idx]
    ensures ReadAll(c, n).0 == Transferred(c.(port := c.port.(rxdb := c.box.buffer[SECTOR_BYTES - 1])))
    ensures ReadAll(c, n).1 == AsWords(c.box.buffer[c.port.idx..SECTOR_BYTES])
    decreases n
  {
    var d := ReadRxdb(c);
    ReadKeepsValid(c);
    var rest := c.box.buffer[c.port.idx..SECTOR_BYTES];
    assert rest[1..] == c.box.buffer[c.port.idx + 1..SECTOR_BYTES];
    if n > 1 {
      EmptyReads(d, n - 1);
    } else {
      assert ReadAll(d, 0) == (d, []);
      assert rest[1..] == [];
    }
  }

  // ---- functions ----------------------------------------------------------

  lemma RunUnfolds(c: Cpu)
    requires Valid(c) && !Blocked(c)
    ensures Valid(Work(c)) && RunWorker(c) == RunWorker(Work(c))
  {
    WorkKeepsValid(c);
  }

  lemma RunStops(c: Cpu)
    requires Valid(c) && Blocked(c)
    ensures RunWorker(c) == c
  {
  }

  /** The controller starts a function and the worker comes to its first transfer. */
  function Start(c: Cpu, f: Function, unit: nat): (d: Cpu)
    requires Valid(c) && Complete(c) && unit < 2
    ensures Valid(d)
  {
    GoKeepsValid(c, f, unit);
    RunWorker(Go(c, f, unit))
  }

  lemma StartWaits(c: Cpu, f: Function, unit: nat)
    requires Valid(c) && Complete(c) && unit < 2 && TransferCount(f) > 0
    ensures var g := Go(c, f, unit);
            && Start(c, f, unit) == BeginTransfer(g, g.program[0])
            && Transferring(Start(c, f, unit), f, TransferCount(f))
  {
    GoKeepsValid(c, f, unit);
    var g := Go(c, f, unit);
    RunUnfolds(g);
    RunStops(Work(g));
  }

  /** A program whose transfer is over and that has only to set DONE. */
  lemma FinishesAfterTransfer(c: Cpu)
    requires Valid(c) && c.thread == Signalled && !c.signals.error
    requires c.program[c.pc + 1..] == [DoneStep]
    ensures RunWorker(c) == Finish(c.(pc := c.pc + 2, thread := Running))
  {
    var d := Work(c);
    assert c.program[c.pc + 1] == c.program[c.pc + 1..][0];
    RunUnfolds(c);
    RunUnfolds(d);
    RunStops(Work(d));
  }

  /** FILL BUFFER with the words of the host. */
  function Fill(c: Cpu, unit: nat, words: seq<Word>): Cpu
    requires Valid(c) && Complete(c) && unit < 2
  {
    RunWorker(WriteAll(Start(c, FillBuffer, unit), words))
  }

  lemma FillDone(c: Cpu, unit: nat, words: seq<Word>)
    requires Valid(c) && Complete(c) && unit < 2 && |words| == SECTOR_BYTES
    ensures var d := Fill(c, unit, words);
            && Valid(d) && Idle(d) && !d.signals.error && d.port.errorCode == 0 && d.port.rxdb == 0
            && d.box == c.box.(buffer := LowBytes(words) + Zeros(SECTOR_BYTES))
  {
    StartWaits(c, FillBuffer, unit);
    var s := Start(c, FillBuffer, unit);
    FillWrites(s, words);
    assert s.box.buffer[..0] + LowBytes(words) + s.box.buffer[SECTOR_BYTES..] == LowBytes(words) + Zeros(SECTOR_BYTES);
    var t := WriteAll(s, words);
    assert t.program[t.pc + 1..] == [DoneStep];
    FinishesAfterTransfer(t);
  }

  /** EMPTY BUFFER, and what the host reads. */
  function Empty(c: Cpu, unit: nat): (Cpu, seq<Word>)
    requires Valid(c) && Complete(c) && unit < 2
  {
    var (d, words) := ReadAll(Start(c, EmptyBuffer, unit), SECTOR_BYTES);
    (RunWorker(d), words)
  }

  lemma EmptyDone(c: Cpu, unit: nat)
    requires Valid(c) && Complete(c) && unit < 2
    ensures var (d, words) := Empty(c, unit);
            && Valid(d) && Idle(d) && !d.signals.error && d.port.errorCode == 0 && d.port.rxdb == 0 && d.box == c.box
            && words == AsWords(c.box.buffer[..SECTOR_BYTES])
  {
    StartWaits(c, EmptyBuffer, unit);
    var s := Start(c, EmptyBuffer, unit);
    EmptyReads(s, SECTOR_BYTES);
    assert s.box.buffer[0..SECTOR_BYTES] == c.box.buffer[..SECTOR_BYTES];
    var t := ReadAll(s, SECTOR_BYTES).0;
    assert t.program[t.pc + 1..] == [DoneStep];
    FinishesAfterTransfer(t);
  }

  /** WRITE SECTOR or READ SECTOR with the two address words of the host. */
  function Access(c: Cpu, f: Function, unit: nat, sector: Word, track: Word): Cpu
    requires Valid(c) && Complete(c) && unit < 2
  {
    RunWorker(WriteAll(Start(c, f, unit), [sector, track]))
  }

  predicate Accesses(f: Function) { f == ReadSectorData || f == WriteSectorData || f == WriteDeletedData }

  lemma WriteTwo(c: Cpu, a: Word, b: Word)
    requires Valid(c)
    ensures Valid(WriteRxdb(c, a)) && WriteAll(c, [a, b]) == WriteRxdb(WriteRxdb(c, a), b)
  {
    hide WriteRxdb;
    WriteKeepsValid(c, a);
    WriteKeepsValid(WriteRxdb(c, a), b);
    assert [a, b][1..] == [b] && [b][1..] == [];
    assert WriteAll(WriteRxdb(c, a), [b]) == WriteAll(WriteRxdb(WriteRxdb(c, a), b), []);
  }

  /** The state when both address words are written. */
  lemma AddressAccepted(c: Cpu, f: Function, sector: Word, track: Word)
    requires Transferring(c, f, 2) && c.port.idx == 0 && Accesses(f)
    ensures WriteAll(c, [sector, track]) == EndTransfer(AcceptTrack(AcceptSector(c, sector % 0x20), track % 0x80))
  {
    WriteTwo(c, sector, track);
    assert WriteRxdb(c, sector) == AcceptSector(c, sector % 0x20);
  }

  /** Where a function has found its sector when its transfer is over. */
  predicate Good(sector: Word, track: Word) { OnDisk(track % 0x80, sector % 0x20) }

  /** The steps behind the transfer: an invalid address ends the program at once ... */
  lemma BadAddress(c: Cpu, f: Function, unit: nat, sector: Word, track: Word)
    requires Valid(c) && Complete(c) && unit < 2 && Accesses(f) && !Good(sector, track)
    ensures var d := Access(c, f, unit, sector, track);
            && Valid(d) && Idle(d) && d.signals.error && d.box == c.box && d.port.rxdb == 0
            && d.port.errorCode == if track % 0x80 >= TRACKS then 0x20 else 0x38
  {
    StartWaits(c, f, unit);
    var s := Start(c, f, unit);
    AddressAccepted(s, f, sector, track);
    var t := WriteAll(s, [sector, track]);
    assert t.signals.error && t.thread == Signalled;
    RunUnfolds(t);
    RunStops(Work(t));
  }

  /** ... and otherwise the drive is asked. */
  lemma AtDrive(c: Cpu, f: Function, unit: nat, sector: Word, track: Word)
    requires Valid(c) && Complete(c) && unit < 2 && Accesses(f) && Good(sector, track)
    ensures var d := WriteAll(Start(c, f, unit), [sector, track]);
            && d.thread == Signalled && !d.signals.error && d.program == ProgramOf(f) && d.pc == 0 && d.unit == unit
            && d.box == c.box && d.port.rxsa == sector % 0x20 && d.port.rxta == track % 0x80 && d.function_ == f
            && d.port.errorCode == 0 && d.port.rxes == 0
  {
    StartWaits(c, f, unit);
    AddressAccepted(Start(c, f, unit), f, sector, track);
  }

  /** The rest of the program after a valid address: seek, settle, the sector, done. */
  lemma ProgramRuns(c: Cpu)
    requires Valid(c) && c.thread == Signalled && c.pc == 0 && !c.signals.error
    requires Accesses(c.function_) && c.program == ProgramOf(c.function_)
    ensures var step := if c.function_ == ReadSectorData then SectorRead else SectorWrite;
            var d := NextStep(StepEffect(c.(pc := 3, thread := Running), step));
            && Valid(d)
            && RunWorker(c) == RunWorker(d)
  {
    var c1 := Work(c);
    RunUnfolds(c);
    assert c1 == c.(pc := 1, thread := Running);
    var c2 := Work(c1);
    RunUnfolds(c1);
    assert c2 == c.(pc := 2, thread := Running);
    var c3 := Work(c2);
    RunUnfolds(c2);
    assert c3 == c.(pc := 3, thread := Running);
    RunUnfolds(c3);
  }

  /** What a read or write does at a valid address of a drive with a floppy. */
  function Accessed(b: Box, f: Function, unit: nat, sector: nat, track: nat): Box
    requires |b.buffer| == BUFFER_BYTES && OnDisk(track, sector)
  {
    if f == ReadSectorData then
      SetDisk(b.(buffer := ReadSector(DiskOf(b, unit), track, sector) + b.buffer[SECTOR_BYTES..]), unit,
              PassSector(DiskOf(b, unit), track, sector))
    else SetDisk(b, unit, WriteSector(DiskOf(b, unit), track, sector, b.buffer[..SECTOR_BYTES]))
  }

  lemma SectorStepEnds(c: Cpu, step: Step)
    requires Valid(c) && c.thread == Running && c.pc == 3 && Accesses(c.function_)
    requires c.program == ProgramOf(c.function_) && step == c.program[3]
    requires OnDisk(c.port.rxta, c.port.rxsa)
    ensures var e := NextStep(StepEffect(c, step));
            && Valid(e) && Valid(RunWorker(e)) && Idle(RunWorker(e)) && RunWorker(e).port.rxdb == c.port.rxes
            && (!DiskOf(c.box, c.unit).open ==>
                  RunWorker(e).signals.error && RunWorker(e).port.errorCode == 0x48 && RunWorker(e).box == c.box)
            && (DiskOf(c.box, c.unit).open ==>
                  !RunWorker(e).signals.error && RunWorker(e).port.errorCode == c.port.errorCode
                  && RunWorker(e).box == Accessed(c.box, c.function_, c.unit, c.port.rxsa, c.port.rxta))
  {
    StepKeeps(c, step);
    var e := NextStep(StepEffect(c, step));
    hide ReadSector, WriteSector, PassSector;
    if DiskOf(c.box, c.unit).open {
      assert e.pc == 4 && e.program[4] == DoneStep && e.thread == Running;
      RunUnfolds(e);
      RunStops(Work(e));
    } else {
      RunStops(e);
    }
  }

  /** READ SECTOR and WRITE SECTOR at a valid address. */
  lemma AccessDone(c: Cpu, f: Function, unit: nat, sector: Word, track: Word)
    requires Valid(c) && Complete(c) && unit < 2 && Accesses(f) && Good(sector, track)
    ensures var d := Access(c, f, unit, sector, track);
            && Valid(d) && Idle(d) && d.port.rxdb == 0
            && (!DiskOf(c.box, unit).open ==> d.signals.error && d.port.errorCode == 0x48 && d.box == c.box)
            && (DiskOf(c.box, unit).open ==>
                  && !d.signals.error && d.port.errorCode == 0
                  && d.box == Accessed(c.box, f, unit, sector % 0x20, track % 0x80))
  {
    AtDrive(c, f, unit, sector, track);
    var t := WriteAll(Start(c, f, unit), [sector, track]);
    hide Start, WriteAll, Accessed;
    ProgramRuns(t);
    SectorStepEnds(t.(pc := 3, thread := Running), if f == ReadSectorData then SectorRead else SectorWrite);
  }

  /** Functions without a transfer. */
  lemma ShortFunctionDone(c: Cpu, f: Function, unit: nat)
    requires Valid(c) && Complete(c) && unit < 2 && TransferCount(f) == 0
    ensures var d := Start(c, f, unit);
            && Valid(d) && Idle(d) && !d.signals.error && d.box == c.box
            && d.port.errorCode == (if f == SetMediaDensity then 0 else c.port.errorCode)
            && (f == ReadErrorCode ==> d.port.rxdb == c.port.errorCode)
            && (f == ReadStatus ==> d.port.rxdb == if DiskOf(c.box, unit).open then 0x80 else 0)
  {
    GoKeepsValid(c, f, unit);
    var g := Go(c, f, unit);
    if f == SetMediaDensity {
      RunStops(g);
    } else {
      RunUnfolds(g);
      RunStops(Work(g));
    }
  }

  /** INIT reads the boot sector, track 1 sector 1 of drive 0, into the buffer. */
  lemma InitEnds(c: Cpu)
    requires Valid(c) && Complete(c)
    ensures Valid(Init(c)) && Idle(RunWorker(Init(c)))
    ensures RunWorker(Init(c)).signals.error <==> !c.box.disk0.open
    ensures RunWorker(Init(c)).box
            == if c.box.disk0.open then Accessed(c.box, ReadSectorData, 0, 1, 1) else c.box
    ensures RunWorker(Init(c)).port.rxdb == if c.box.disk0.open then 0x84 else 0
    ensures RunWorker(Init(c)).port.errorCode == if c.box.disk0.open then 0 else 0x48
  {
    var c0 := Init(c);
    assert !Transfers(c0.program[0]) && !Transfers(c0.program[1]) && !Transfers(c0.program[2]);
    hide ReadSector, PassSector;
    RunUnfolds(c0);
    var c1 := Work(c0);
    assert c1 == c0.(pc := 1);
    RunUnfolds(c1);
    var c2 := Work(c1);
    if c.box.disk0.open {
      assert c2.pc == 2 && c2.program == c0.program;
      RunUnfolds(c2);
      RunStops(Work(c2));
    } else {
      RunStops(c2);
    }
  }

  // ---- runs of functions --------------------------------------------------

  /** INIT, or a function with what the controller sends for it. */
  datatype Command =
    | InitIt
    | FillIt(unit: nat, words: seq<Word>)
    | EmptyIt(unit: nat)
    | AccessIt(f: Function, unit: nat, sector: Word, track: Word)
    | Short(f: Function, unit: nat)

  predicate Proper(cmd: Command) {
    match cmd
    case InitIt => true
    case FillIt(unit, words) => unit < 2 && |words| == SECTOR_BYTES
    case EmptyIt(unit) => unit < 2
    case AccessIt(f, unit, _, _) => unit < 2 && Accesses(f)
    case Short(f, unit) => unit < 2 && TransferCount(f) == 0
  }

  function Do(c: Cpu, cmd: Command): Cpu
    requires Valid(c) && Complete(c) && Proper(cmd)
  {
    match cmd
    case InitIt => Initialised(c)
    case FillIt(unit, words) => Fill(c, unit, words)
    case EmptyIt(unit) => Empty(c, unit).0
    case AccessIt(f, unit, sector, track) => Access(c, f, unit, sector, track)
    case Short(f, unit) => Start(c, f, unit)
  }

  function Initialised(c: Cpu): Cpu
    requires Valid(c) && Complete(c)
  {
    InitEnds(c);
    RunWorker(Init(c))
  }

  /** What a function leaves in the buffer and on the disks. */
  function After(b: Box, cmd: Command): (b': Box)
    requires |b.buffer| == BUFFER_BYTES && Proper(cmd)
    ensures |b'.buffer| == BUFFER_BYTES
  {
    match cmd
    case InitIt => if b.disk0.open then Accessed(b, ReadSectorData, 0, 1, 1) else b
    case FillIt(_, words) => b.(buffer := LowBytes(words) + Zeros(SECTOR_BYTES))
    case AccessIt(f, unit, sector, track) =>
      if Good(sector, track) && DiskOf(b, unit).open
      then Accessed(b, f, unit, sector % 0x20, track % 0x80) else b
    case _ => b
  }

  /** Every function ends with DONE set and its program behind its last step. */
  lemma CommandDone(c: Cpu, cmd: Command)
    requires Valid(c) && Complete(c) && Proper(cmd)
    ensures Valid(Do(c, cmd)) && Idle(Do(c, cmd))
    ensures Do(c, cmd).box == After(c.box, cmd)
  {
    match cmd
    case InitIt => InitEnds(c);
    case FillIt(unit, words) => FillDone(c, unit, words);
    case EmptyIt(unit) => EmptyDone(c, unit);
    case AccessIt(f, unit, sector, track) =>
      if Good(sector, track) {
        AccessDone(c, f, unit, sector, track);
      } else {
        BadAddress(c, f, unit, sector, track);
      }
    case Short(f, unit) => ShortFunctionDone(c, f, unit);
  }

  function DoAll(c: Cpu, cmds: seq<Command>): (d: Cpu)
    requires Valid(c) && Complete(c) && forall cmd | cmd in cmds :: Proper(cmd)
    ensures Valid(d) && Complete(d)
    decreases |cmds|
  {
    if cmds == [] then c
    else
      CommandDone(c, cmds[0]);
      DoAll(Do(c, cmds[0]), cmds[1..])
  }

  predicate WritesTo(cmd: Command, unit: nat, sector: nat, track: nat) {
    cmd.AccessIt? && cmd.f != ReadSectorData && cmd.unit == unit
    && cmd.sector % 0x20 == sector && cmd.track % 0x80 == track
  }

  lemma CommandKeepsSector(b: Box, cmd: Command, unit: nat, sector: nat, track: nat)
    requires |b.buffer| == BUFFER_BYTES && Proper(cmd) && unit < 2
    requires OnDisk(track, sector) && !WritesTo(cmd, unit, sector, track)
    ensures SectorData(DiskOf(After(b, cmd), unit), track, sector) == SectorData(DiskOf(b, unit), track, sector)
    ensures DiskOf(After(b, cmd), unit).open == DiskOf(b, unit).open
  {
    if cmd.AccessIt? && cmd.f != ReadSectorData && cmd.unit == unit && Good(cmd.sector, cmd.track) {
      OthersKept(DiskOf(b, unit), cmd.track % 0x80, cmd.sector % 0x20, b.buffer[..SECTOR_BYTES], track, sector);
      hide SectorData;
    }
  }

  /** A sector keeps its content until it is written. */
  lemma {:induction false} SectorKept(c: Cpu, cmds: seq<Command>, unit: nat, sector: nat, track: nat)
    requires Valid(c) && Complete(c) && forall cmd | cmd in cmds :: Proper(cmd)
    requires unit < 2 && OnDisk(track, sector)
    requires forall cmd | cmd in cmds :: !WritesTo(cmd, unit, sector, track)
    ensures var d := DoAll(c, cmds);
            && SectorData(DiskOf(d.box, unit), track, sector) == SectorData(DiskOf(c.box, unit), track, sector)
            && DiskOf(d.box, unit).open == DiskOf(c.box, unit).open
    decreases |cmds|
  {
    hide SectorData, Do, After, WritesTo;
    if cmds != [] {
      CommandDone(c, cmds[0]);
      CommandKeepsSector(c.box, cmds[0], unit, sector, track);
      SectorKept(Do(c, cmds[0]), cmds[1..], unit, sector, track);
    }
  }

  // ---- the stream of the image file ---------------------------------------

  /** What a run of functions leaves in the buffer and on the disks. */
  function AfterAll(b: Box, cmds: seq<Command>): (b': Box)
    requires |b.buffer| == BUFFER_BYTES && forall cmd | cmd in cmds :: Proper(cmd)
    ensures |b'.buffer| == BUFFER_BYTES
    decreases |cmds|
  {
    if cmds == [] then b else After(AfterAll(b, cmds[..|cmds| - 1]), cmds[|cmds| - 1])
  }

  lemma {:induction false} AfterFirst(b: Box, cmds: seq<Command>)
    requires |b.buffer| == BUFFER_BYTES && cmds != [] && forall cmd | cmd in cmds :: Proper(cmd)
    ensures AfterAll(b, cmds) == AfterAll(After(b, cmds[0]), cmds[1..])
    decreases |cmds|
  {
    hide After;
    var n := |cmds| - 1;
    if n > 0 {
      AfterFirst(b, cmds[..n]);
      assert cmds[..n][1..] == cmds[1..][..n - 1];
    }
  }

  lemma {:induction false} DoAllDone(c: Cpu, cmds: seq<Command>)
    requires Valid(c) && Complete(c) && forall cmd | cmd in cmds :: Proper(cmd)
    ensures DoAll(c, cmds).box == AfterAll(c.box, cmds)
    decreases |cmds|
  {
    hide Do, After;
    if cmds != [] {
      CommandDone(c, cmds[0]);
      DoAllDone(Do(c, cmds[0]), cmds[1..]);
      AfterFirst(c.box, cmds);
    }
  }

  /** A read of the drive that reaches beyond the end of its image file; INIT reads the
      boot sector of drive 0. */
  predicate ReadsBeyond(d: Disk, cmd: Command, unit: nat) {
    match cmd
    case InitIt => unit == 0 && BehindEnd(d, 1, 1)
    case AccessIt(f, u, sector, track) =>
      f == ReadSectorData && u == unit && Good(sector, track) && BehindEnd(d, track % 0x80, sector % 0x20)
    case _ => false
  }

  predicate BehindEnd(d: Disk, track: nat, sector: nat)
    requires OnDisk(track, sector)
  {
    d.open && Kept(d, track) && SectorPlace(d, track, sector) + SECTOR_BYTES > |d.file.data|
  }

  /** A write that reaches the image file of the drive. */
  predicate Reaches(d: Disk, cmd: Command, unit: nat) {
    && cmd.AccessIt? && cmd.f != ReadSectorData && cmd.unit == unit && Good(cmd.sector, cmd.track)
    && d.open && !d.readOnly && Kept(d, cmd.track % 0x80)
  }

  predicate NoneReaches(d: Disk, cmds: seq<Command>, unit: nat) {
    forall i | 0 <= i < |cmds| :: !Reaches(d, cmds[i], unit)
  }

  /** A read beyond the end of the file that no write to the drive comes after, or a
      failure from before and no write at all. */
  ghost predicate Fails(b: Box, cmds: seq<Command>, unit: nat)
    requires |b.buffer| == BUFFER_BYTES && forall cmd | cmd in cmds :: Proper(cmd)
  {
    var d := DiskOf(b, unit);
    || (d.file.failed && NoneReaches(d, cmds, unit))
    || exists j :: FailsAt(b, cmds, unit, j)
  }

  predicate FailsAt(b: Box, cmds: seq<Command>, unit: nat, j: int)
    requires |b.buffer| == BUFFER_BYTES && forall cmd | cmd in cmds :: Proper(cmd)
  {
    && 0 <= j < |cmds| && ReadsBeyond(DiskOf(AfterAll(b, cmds[..j]), unit), cmds[j], unit)
    && NoneReaches(DiskOf(b, unit), cmds[j + 1..], unit)
  }

  /** What one function does to the stream of a drive. */
  lemma CommandAndStream(b: Box, cmd: Command, unit: nat)
    requires |b.buffer| == BUFFER_BYTES && Proper(cmd) && unit < 2
    ensures var d, d' := DiskOf(b, unit), DiskOf(After(b, cmd), unit);
            && (d'.file.failed <==> (d.file.failed && !Reaches(d, cmd, unit)) || ReadsBeyond(d, cmd, unit))
            && !(Reaches(d, cmd, unit) && ReadsBeyond(d, cmd, unit))
            && d'.open == d.open && d'.readOnly == d.readOnly && d'.track0 == d.track0
  {
    hide ReadSector, WriteBytes;
  }

  lemma SameDrive(d: Disk, d': Disk, cmd: Command, unit: nat)
    requires d'.open == d.open && d'.readOnly == d.readOnly && d'.track0 == d.track0
    ensures Reaches(d, cmd, unit) <==> Reaches(d', cmd, unit)
  {
  }

  lemma {:induction false} StreamAfter(b: Box, cmds: seq<Command>, unit: nat)
    requires |b.buffer| == BUFFER_BYTES && unit < 2 && forall cmd | cmd in cmds :: Proper(cmd)
    ensures var d, d' := DiskOf(b, unit), DiskOf(AfterAll(b, cmds), unit);
            && (d'.file.failed <==> Fails(b, cmds, unit))
            && d'.open == d.open && d'.readOnly == d.readOnly && d'.track0 == d.track0
    decreases |cmds|
  {
    hide After, Reaches, ReadsBeyond;
    if cmds != [] {
      var n := |cmds| - 1;
      StreamAfter(b, cmds[..n], unit);
      CommandAndStream(AfterAll(b, cmds[..n]), cmds[n], unit);
      SameDrive(DiskOf(b, unit), DiskOf(AfterAll(b, cmds[..n]), unit), cmds[n], unit);
      FailsLater(b, cmds, unit);
    }
  }

  lemma FailsLater(b: Box, cmds: seq<Command>, unit: nat)
    requires |b.buffer| == BUFFER_BYTES && cmds != [] && forall cmd | cmd in cmds :: Proper(cmd)
    ensures var n := |cmds| - 1;
            Fails(b, cmds, unit)
            <==> ReadsBeyond(DiskOf(AfterAll(b, cmds[..n]), unit), cmds[n], unit)
                 || (Fails(b, cmds[..n], unit) && !Reaches(DiskOf(b, unit), cmds[n], unit))
  {
    hide AfterAll, Reaches, ReadsBeyond;
    var n := |cmds| - 1;
    var d := DiskOf(b, unit);
    NoneSplit(d, cmds, unit, 0);
    assert cmds[0..] == cmds && cmds[..n][0..] == cmds[..n];
    forall j | 0 <= j < n
      ensures FailsAt(b, cmds, unit, j) <==> FailsAt(b, cmds[..n], unit, j) && !Reaches(d, cmds[n], unit)
    {
      NoneSplit(d, cmds, unit, j + 1);
      assert cmds[..n][..j] == cmds[..j];
    }
    assert cmds[n + 1..] == [];
    assert FailsAt(b, cmds, unit, n) <==> ReadsBeyond(DiskOf(AfterAll(b, cmds[..n]), unit), cmds[n], unit);
    hide FailsAt, NoneReaches;
  }

  lemma NoneSplit(d: Disk, cmds: seq<Command>, unit: nat, from: nat)
    requires from < |cmds|
    ensures var n := |cmds| - 1;
            NoneReaches(d, cmds[from..], unit)
            <==> NoneReaches(d, cmds[..n][from..], unit) && !Reaches(d, cmds[n], unit)
  {
    hide Reaches;
    var n := |cmds| - 1;
    assert cmds[from..] == cmds[..n][from..] + [cmds[n]];
  }

  // ---- what comes back ----------------------------------------------------

  function Stored(c: Cpu, unit: nat, words: seq<Word>, sector: Word, track: Word): (d: Cpu)
    requires Valid(c) && Complete(c) && unit < 2 && |words| == SECTOR_BYTES
    ensures Valid(d) && Complete(d)
  {
    DoAll(c, [FillIt(unit, words), AccessIt(WriteSectorData, unit, sector, track)])
  }

  lemma StoredSector(c: Cpu, unit: nat, words: seq<Word>, sector: Word, track: Word)
    requires Valid(c) && Complete(c) && unit < 2 && |words| == SECTOR_BYTES && Good(sector, track)
    requires var d := DiskOf(c.box, unit); d.open && !d.readOnly && Kept(d, track % 0x80)
    ensures var d := DiskOf(Stored(c, unit, words, sector, track).box, unit);
            && d == WriteSector(DiskOf(c.box, unit), track % 0x80, sector % 0x20, LowBytes(words))
            && SectorData(d, track % 0x80, sector % 0x20) == LowBytes(words) && d.open && !d.file.failed
  {
    var fill, write := FillIt(unit, words), AccessIt(WriteSectorData, unit, sector, track);
    DoAllDone(c, [fill, write]);
    hide Valid, DoAll, Accessed, WriteBytes;
    AfterTwo(c.box, fill, write);
    var b := After(c.box, fill);
    assert b.buffer[..SECTOR_BYTES] == LowBytes(words);
    assert After(b, write) == Accessed(b, WriteSectorData, unit, sector % 0x20, track % 0x80);
    WrittenIsRead(DiskOf(c.box, unit), track % 0x80, sector % 0x20, LowBytes(words));
    AccessedWrites(b, unit, sector % 0x20, track % 0x80);
    hide SectorData;
  }

  lemma AfterTwo(b: Box, x: Command, y: Command)
    requires |b.buffer| == BUFFER_BYTES && Proper(x) && Proper(y)
    ensures AfterAll(b, [x, y]) == After(After(b, x), y)
  {
    hide After;
    assert [x, y][..1] == [x] && [x][..0] == [];
    assert AfterAll(b, [x]) == After(AfterAll(b, []), x);
  }

  lemma AccessedWrites(b: Box, unit: nat, sector: nat, track: nat)
    requires |b.buffer| == BUFFER_BYTES && OnDisk(track, sector) && unit < 2
    ensures DiskOf(Accessed(b, WriteSectorData, unit, sector, track), unit)
            == WriteSector(DiskOf(b, unit), track, sector, b.buffer[..SECTOR_BYTES])
  {
  }

  /** FILL, WRITE, other functions, READ. */
  function ReadAgain(c: Cpu, unit: nat, words: seq<Word>, sector: Word, track: Word, others: seq<Command>): (e: Cpu)
    requires Valid(c) && Complete(c) && unit < 2 && |words| == SECTOR_BYTES
    requires forall cmd | cmd in others :: Proper(cmd)
    ensures Valid(e) && Complete(e)
  {
    var read := AccessIt(ReadSectorData, unit, sector, track);
    var d := DoAll(Stored(c, unit, words, sector, track), others);
    CommandDone(d, read);
    Do(d, read)
  }

  /** FILL, WRITE, any functions that do not write the sector, READ, EMPTY: the bytes
      come back in order, unless the functions between leave the stream of the image
      file failed, by a read beyond its end with no write after it.  Zeros come back then. */
  lemma BytesComeBack(c: Cpu, unit: nat, words: seq<Word>, sector: Word, track: Word, others: seq<Command>)
    requires Valid(c) && Complete(c) && unit < 2 && |words| == SECTOR_BYTES && Good(sector, track)
    requires var d := DiskOf(c.box, unit); d.open && !d.readOnly && Kept(d, track % 0x80)
    requires forall cmd | cmd in others :: Proper(cmd) && !WritesTo(cmd, unit, sector % 0x20, track % 0x80)
    ensures var e := ReadAgain(c, unit, words, sector, track, others);
            var lost := Fails(Stored(c, unit, words, sector, track).box, others, unit);
            && Idle(e) && !e.signals.error
            && Empty(e, unit).1 == AsWords(if lost then Zeros(SECTOR_BYTES) else LowBytes(words))
  {
    var read := AccessIt(ReadSectorData, unit, sector, track);
    var s, t := sector % 0x20, track % 0x80;
    StoredSector(c, unit, words, sector, track);
    var d := Stored(c, unit, words, sector, track);
    hide Stored, DoAll, ReadSector, SectorData, PassSector, Fails;
    SectorKept(d, others, unit, s, t);
    DoAllDone(d, others);
    StreamAfter(d.box, others, unit);
    var c3 := DoAll(d, others);
    SectorSeen(DiskOf(c3.box, unit), t, s);
    AccessDone(c3, ReadSectorData, unit, sector, track);
    CommandDone(c3, read);
    var e := Do(c3, read);
    EmptyDone(e, unit);
    assert e.box.buffer[..SECTOR_BYTES] == ReadSector(DiskOf(c3.box, unit), t, s);
  }

  /** READ SECTOR of the first sector of track 70 on drive 0. */
  function FarRead(): (cmds: seq<Command>)
    ensures forall cmd | cmd in cmds :: Proper(cmd)
  {
    [AccessIt(ReadSectorData, 0, 1, 70)]
  }

  /** So they do not come back when a sector far behind is read between, on a new image. */
  lemma BytesAreLost(c: Cpu, words: seq<Word>)
    requires Valid(c) && Complete(c) && |words| == SECTOR_BYTES
    requires c.box.disk0 == Disk(true, false, true, File([], false))
    ensures Empty(ReadAgain(c, 0, words, 1, 1, FarRead()), 0).1 == AsWords(Zeros(SECTOR_BYTES))
  {
    StoredSector(c, 0, words, 1, 1);
    hide Stored, ReadAgain, Empty;
    assert FarRead()[..0] == [] && FarRead()[1..] == [];
    assert FailsAt(Stored(c, 0, words, 1, 1).box, FarRead(), 0, 0);
    BytesComeBack(c, 0, words, 1, 1, FarRead());
  }
}
