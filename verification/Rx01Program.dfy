/** The microprogram of the RX01 floppy box (rx0102ucpu.cpp, rx0102drive.cpp): a
    list of steps executed by one thread, and a one-word port through which the
    controller passes bytes and disk addresses. */
module Rx01Program {
  import opened Words
  import opened StorageImage

  const TRACKS := 77
  const SECTORS := 26
  const SECTOR_BYTES := 128
  const BUFFER_BYTES := 256

  // ---- the drives ---------------------------------------------------------

  /** `track0` tells whether the image file contains track 0. */
  datatype Disk = Disk(open: bool, readOnly: bool, track0: bool, file: File)

  /** check_disk_address */
  predicate OnDisk(track: nat, sector: nat) { track < TRACKS && 1 <= sector <= SECTORS }

  /** get_sector_image_offset */
  function SectorOffset(track: nat, sector: nat): nat
    requires sector >= 1
  {
    (track * 26 + (sector - 1)) * 128
  }

  /** The track of the image file a track of the floppy is kept in. */
  function FileTrack(d: Disk, track: nat): nat { if d.track0 || track == 0 then track else track - 1 }

  predicate Kept(d: Disk, track: nat) { d.track0 || track > 0 }

  function SectorPlace(d: Disk, track: nat, sector: nat): nat
    requires sector >= 1
  {
    SectorOffset(FileTrack(d, track), sector)
  }

  /** What a sector of the floppy holds; track 0 reads as zeros when it is not kept. */
  function SectorData(d: Disk, track: nat, sector: nat): (bytes: seq<Byte>)
    requires OnDisk(track, sector)
    ensures |bytes| == SECTOR_BYTES
  {
    if !Kept(d, track) then Zeros(SECTOR_BYTES)
    else ReadBytes(d.file.data, SectorPlace(d, track, sector), SECTOR_BYTES)
  }

  /** What sector_read delivers ... */
  function ReadSector(d: Disk, track: nat, sector: nat): (bytes: seq<Byte>)
    requires OnDisk(track, sector)
    ensures |bytes| == SECTOR_BYTES
  {
    if !Kept(d, track) then Zeros(SECTOR_BYTES)
    else Delivered(d.file, SectorPlace(d, track, sector), SECTOR_BYTES)
  }

  /** ... and the disk after it. */
  function PassSector(d: Disk, track: nat, sector: nat): Disk
    requires OnDisk(track, sector)
  {
    if !Kept(d, track) then d
    else d.(file := AfterRead(d.file, SectorPlace(d, track, sector), SECTOR_BYTES))
  }

  /** sector_write */
  function WriteSector(d: Disk, track: nat, sector: nat, bytes: seq<Byte>): Disk
    requires OnDisk(track, sector)
  {
    if d.readOnly || !Kept(d, track) then d
    else d.(file := AfterWrite(d.file, SectorPlace(d, track, sector), bytes))
  }

  /** Tracks follow each other in the image, as get_image_offset has it for one head;
      an image without track 0 begins with track 1. */
  lemma SectorsInOrder(d: Disk, track: nat, sector: nat)
    requires OnDisk(track, sector)
    ensures SectorOffset(track, sector) == Geometry(77, 1, 26, 128).ImageOffset(track, 0, sector - 1)
    ensures d.track0 ==> SectorPlace(d, track, sector) == Geometry(77, 1, 26, 128).ImageOffset(track, 0, sector - 1)
    ensures !d.track0 && track > 0 ==>
              SectorPlace(d, track, sector) == Geometry(76, 1, 26, 128).ImageOffset(track - 1, 0, sector - 1)
    ensures Kept(d, track) <==> d.track0 || track > 0
  {
  }

  /** Different sectors of a disk do not overlap in the image. */
  lemma SectorsApart(t: nat, s: nat, t': nat, s': nat)
    requires OnDisk(t, s) && OnDisk(t', s') && (t, s) != (t', s')
    ensures SectorOffset(t, s) + SECTOR_BYTES <= SectorOffset(t', s')
            || SectorOffset(t', s') + SECTOR_BYTES <= SectorOffset(t, s)
  {
  }

  /** A written sector is read back, also when the stream had failed before. */
  lemma WrittenIsRead(d: Disk, t: nat, s: nat, bytes: seq<Byte>)
    requires OnDisk(t, s) && |bytes| == SECTOR_BYTES && !d.readOnly && Kept(d, t)
    ensures ReadSector(WriteSector(d, t, s, bytes), t, s) == bytes
    ensures SectorData(WriteSector(d, t, s, bytes), t, s) == bytes
  {
    var p := SectorPlace(d, t, s);
    ReadAfterWrite(d.file.data, p, bytes, p, SECTOR_BYTES);
  }

  /** No other sector changes. */
  lemma OthersKept(d: Disk, t: nat, s: nat, bytes: seq<Byte>, t': nat, s': nat)
    requires OnDisk(t, s) && OnDisk(t', s') && (t, s) != (t', s') && |bytes| == SECTOR_BYTES
    ensures SectorData(WriteSector(d, t, s, bytes), t', s') == SectorData(d, t', s')
  {
    if Kept(d, t) && Kept(d, t') {
      var p, p' := SectorPlace(d, t, s), SectorPlace(d, t', s');
      SectorsApart(FileTrack(d, t), s, FileTrack(d, t'), s');
      ReadAfterWrite(d.file.data, p, bytes, p', SECTOR_BYTES);
    }
  }

  /** The sector itself is delivered unless the stream has failed. */
  lemma SectorSeen(d: Disk, t: nat, s: nat)
    requires OnDisk(t, s)
    ensures ReadSector(d, t, s) == if d.file.failed then Zeros(SECTOR_BYTES) else SectorData(d, t, s)
  {
  }

  // ---- the microprogram ---------------------------------------------------

  datatype Function =
    FillBuffer | EmptyBuffer | WriteSectorData | ReadSectorData
    | SetMediaDensity | ReadStatus | WriteDeletedData | ReadErrorCode

  datatype Step =
    TransferBufferWrite | TransferBufferRead | SeekTrack | HeadSettle | SectorWrite | SectorRead
    | InitDone | DoneReadErrorCode | DoneStep

  /** The worker runs, waits on its condition inside a transfer step, or was
      signalled there. */
  datatype Thread = Running | Waiting | Signalled

  datatype Signals = Signals(done: bool, error: bool, request: bool)
  datatype Port = Port(rxdb: Word, rxes: Word, rxsa: nat, rxta: nat, errorCode: Byte, idx: nat, count: nat)
  datatype Box = Box(buffer: seq<Byte>, disk0: Disk, disk1: Disk)

  datatype Cpu = Cpu(
    function_: Function, unit: nat, program: seq<Step>, pc: nat, thread: Thread,
    signals: Signals, port: Port, box: Box)

  function DiskOf(b: Box, unit: nat): Disk { if unit == 0 then b.disk0 else b.disk1 }

  function SetDisk(b: Box, unit: nat, d: Disk): Box { if unit == 0 then b.(disk0 := d) else b.(disk1 := d) }

  predicate Complete(c: Cpu) { c.pc >= |c.program| }

  predicate Idle(c: Cpu) { Complete(c) && c.thread == Running && c.signals.done && !c.signals.request }

  predicate Transfers(step: Step) { step == TransferBufferWrite || step == TransferBufferRead }

  predicate Ends(step: Step) { step == InitDone || step == DoneReadErrorCode || step == DoneStep }

  /** get_transfer_byte_count */
  function TransferCount(f: Function): nat {
    match f
    case FillBuffer => 128
    case EmptyBuffer => 128
    case ReadSectorData => 2
    case WriteSectorData => 2
    case WriteDeletedData => 2
    case _ => 0
  }

  /** Kept by every event: a program that is not complete ends with one of the steps
      that set DONE, and the worker waits only inside a transfer. */
  predicate Valid(c: Cpu) {
    && c.unit < 2 && |c.box.buffer| == BUFFER_BYTES
    && c.port.count == TransferCount(c.function_)
    && (Complete(c) ==> c.thread == Running && c.signals.done && !c.signals.request)
    && (!Complete(c) ==> Ends(c.program[|c.program| - 1]))
    && (c.thread != Running ==> !Complete(c) && Transfers(c.program[c.pc]))
    && (c.thread == Waiting ==> c.signals.request && c.port.idx < c.port.count)
    && (forall i | 0 <= i < |c.program| :: Transfers(c.program[i]) ==> c.port.count > 0)
  }

  function ProgramOf(f: Function): seq<Step> {
    match f
    case FillBuffer => [TransferBufferWrite, DoneStep]
    case EmptyBuffer => [TransferBufferRead, DoneStep]
    case ReadSectorData => [TransferBufferWrite, SeekTrack, HeadSettle, SectorRead, DoneStep]
    case WriteSectorData => [TransferBufferWrite, SeekTrack, HeadSettle, SectorWrite, DoneStep]
    case WriteDeletedData => [TransferBufferWrite, SeekTrack, HeadSettle, SectorWrite, DoneStep]
    case SetMediaDensity => []
    case ReadStatus => [DoneStep]
    case ReadErrorCode => [DoneReadErrorCode]
  }

  // ---- events -------------------------------------------------------------

  /** step_done */
  function Finish(c: Cpu): Cpu {
    c.(signals := c.signals.(done := true, request := false), port := c.port.(rxdb := c.port.rxes))
  }

  predicate ClearsErrorCode(f: Function) { f != ReadStatus && f != ReadErrorCode }

  /** go(), with the power on */
  function Go(c: Cpu, f: Function, unit: nat): Cpu {
    var port := c.port.(count := TransferCount(f),
                        rxes := if f == ReadStatus && DiskOf(c.box, unit).open then 0x80 else 0,
                        errorCode := if ClearsErrorCode(f) then 0 else c.port.errorCode);
    var box := if f == FillBuffer then c.box.(buffer := Zeros(BUFFER_BYTES)) else c.box;
    var started := Cpu(f, unit, ProgramOf(f), 0, Running, Signals(false, false, false), port, box);
    if f == SetMediaDensity then Finish(started) else started
  }

  /** init(), with the power on and no transfer waiting: the boot sector of drive 0 is read. */
  function Init(c: Cpu): Cpu {
    Cpu(c.function_, 0, [SeekTrack, SectorRead, InitDone], 0, Running, Signals(false, false, false),
        c.port.(rxdb := 0, rxes := 0, errorCode := 0, rxta := 1, rxsa := 1), c.box)
  }

  /** The selected drive finds the sector: valid address, and a floppy in the drive. */
  predicate Found(c: Cpu) {
    OnDisk(c.port.rxta, c.port.rxsa) && DiskOf(c.box, c.unit).open
  }

  function NotFound(c: Cpu): Cpu {
    c.(signals := c.signals.(error := true), port := c.port.(errorCode := 0x48))  // 0110
  }

  /** step_execute, for the steps that do not transfer. */
  function StepEffect(c: Cpu, step: Step): Cpu
    requires |c.box.buffer| == BUFFER_BYTES
  {
    match step
    case SectorWrite =>
      if !Found(c) then NotFound(c)
      else
        var d := WriteSector(DiskOf(c.box, c.unit), c.port.rxta, c.port.rxsa, c.box.buffer[..SECTOR_BYTES]);
        c.(signals := c.signals.(error := false), box := SetDisk(c.box, c.unit, d))
    case SectorRead =>
      if !Found(c) then NotFound(c)
      else
        var d := DiskOf(c.box, c.unit);
        var bytes := ReadSector(d, c.port.rxta, c.port.rxsa);
        c.(signals := c.signals.(error := false),
           box := SetDisk(c.box.(buffer := bytes + c.box.buffer[SECTOR_BYTES..]), c.unit,
                          PassSector(d, c.port.rxta, c.port.rxsa)))
    case InitDone =>
      Finish(c.(port := c.port.(rxes := 0x04 + if DiskOf(c.box, c.unit).open then 0x80 else 0)))
    case DoneReadErrorCode =>
      Finish(c).(port := c.port.(rxdb := c.port.errorCode))
    case DoneStep => Finish(c)
    case _ => c
  }

  /** The end of a round of worker(): an error stops the program. */
  function NextStep(c: Cpu): Cpu {
    var d := c.(pc := c.pc + 1, thread := Running);
    if c.signals.error then Finish(d.(program := [], pc := 0)) else d
  }

  /** A transfer step up to the point where it waits for the controller. */
  function BeginTransfer(c: Cpu, step: Step): Cpu
    requires |c.box.buffer| == BUFFER_BYTES
  {
    c.(thread := Waiting, signals := c.signals.(request := true),
       port := c.port.(idx := 0, rxdb := if step == TransferBufferRead then c.box.buffer[0] else c.port.rxdb))
  }

  /** The worker goes on, unless it has nothing to do or waits. */
  function Work(c: Cpu): Cpu
    requires Valid(c)
  {
    if Complete(c) || c.thread == Waiting then c
    else if c.thread == Signalled then NextStep(c)
    else
      var step := c.program[c.pc];
      if Transfers(step) then BeginTransfer(c, step) else NextStep(StepEffect(c, step))
  }

  /** The end of a transfer wakes the worker. */
  function EndTransfer(c: Cpu): Cpu {
    c.(signals := c.signals.(request := false), thread := if c.thread == Waiting then Signalled else c.thread)
  }

  function AcceptSector(c: Cpu, rxsa: nat): Cpu {
    var d := c.(port := c.port.(rxsa := rxsa, idx := c.port.idx + 1));
    if rxsa < 1 || rxsa > SECTORS
    then d.(signals := d.signals.(error := true), port := d.port.(errorCode := 0x38)) else d  // 0070
  }

  function AcceptTrack(c: Cpu, rxta: nat): Cpu {
    var d := c.(port := c.port.(rxta := rxta, idx := c.port.idx + 1));
    if rxta >= TRACKS
    then d.(signals := d.signals.(error := true), port := d.port.(errorCode := 0x20)) else d  // 0040
  }

  /** First the sector, then the track. */
  function AcceptAddress(c: Cpu, w: Word): Cpu {
    if c.port.idx == 0 then AcceptSector(c, w % 0x20) else EndTransfer(AcceptTrack(c, w % 0x80))
  }

  /** rxdb_after_write */
  function WriteRxdb(c: Cpu, w: Word): Cpu
    requires |c.box.buffer| == BUFFER_BYTES && c.port.count == TransferCount(c.function_)
  {
    if Complete(c) then c.(port := c.port.(rxdb := w))
    else if c.port.idx >= c.port.count then c
    else match c.function_
      case FillBuffer =>
        var d := c.(box := c.box.(buffer := c.box.buffer[c.port.idx := w % 0x100]),
                    port := c.port.(idx := c.port.idx + 1));
        if d.port.idx >= d.port.count then EndTransfer(d) else d
      case ReadSectorData => AcceptAddress(c, w)
      case WriteSectorData => AcceptAddress(c, w)
      case WriteDeletedData => AcceptAddress(c, w)
      case _ => c
  }

  /** rxdb_after_read; the word read is the one in RXDB before. */
  function ReadRxdb(c: Cpu): Cpu
    requires |c.box.buffer| == BUFFER_BYTES && c.port.count == TransferCount(c.function_)
  {
    if Complete(c) || c.port.idx >= c.port.count then c
    else if c.function_ == EmptyBuffer || c.function_ == ReadErrorCode then
      if c.port.idx + 1 < c.port.count then
        c.(port := c.port.(idx := c.port.idx + 1, rxdb := c.box.buffer[c.port.idx + 1]))
      else EndTransfer(c.(port := c.port.(idx := c.port.idx + 1)))
    else c
  }

  // ---- what every event keeps ---------------------------------------------

  lemma GoKeepsValid(c: Cpu, f: Function, unit: nat)
    requires Valid(c) && Complete(c) && unit < 2
    ensures Valid(Go(c, f, unit))
  {
  }

  lemma StepKeeps(c: Cpu, step: Step)
    requires Valid(c) && !Complete(c) && c.thread == Running && step == c.program[c.pc] && !Transfers(step)
    ensures Valid(NextStep(StepEffect(c, step)))
  {
    var d := StepEffect(c, step);
    assert d.program == c.program && d.pc == c.pc && |d.box.buffer| == BUFFER_BYTES && d.unit == c.unit
           && d.port.count == c.port.count;
    assert Ends(step) ==> d.signals.done && !d.signals.request;
  }

  lemma WorkKeepsValid(c: Cpu)
    requires Valid(c)
    ensures Valid(Work(c))
  {
    if !Complete(c) && c.thread == Running && !Transfers(c.program[c.pc]) {
      StepKeeps(c, c.program[c.pc]);
    }
  }

  lemma WriteKeepsValid(c: Cpu, w: Word)
    requires Valid(c)
    ensures Valid(WriteRxdb(c, w))
  {
  }

  lemma ReadKeepsValid(c: Cpu)
    requires Valid(c)
    ensures Valid(ReadRxdb(c))
  {
  }

  // ---- the seek -----------------------------------------------------------

  /** One round of the loops of pgmstep_seek. */
  function SeekStep(cylinder: nat, track: nat, increment: nat): nat {
    if cylinder < track then
      if cylinder + increment >= track then track else cylinder + increment
    else
      if cylinder - track <= increment then track else cylinder - increment
  }

  function SeekSteps(cylinder: nat, track: nat, increment: nat, n: nat): nat
    decreases n
  {
    if n == 0 then cylinder else SeekSteps(SeekStep(cylinder, track, increment), track, increment, n - 1)
  }

  lemma {:induction false} SeekArrives(cylinder: nat, track: nat, increment: nat) returns (n: nat)
    requires increment > 0
    ensures SeekSteps(cylinder, track, increment, n) == track
    decreases Abs(cylinder - track)
  {
    if cylinder == track {
      n := 0;
    } else {
      var m := SeekArrives(SeekStep(cylinder, track, increment), track, increment);
      n := m + 1;
    }
  }

  lemma {:induction false} SeekStalls(cylinder: nat, track: nat, n: nat)
    ensures SeekSteps(cylinder, track, 0, n) == cylinder
    decreases n
  {
    if n > 0 {
      SeekStalls(cylinder, track, n - 1);
    }
  }

  const TRACKS_A_ROUND := 10 / 5

  /** The tracks a drive moves in a round of 10 ms, at 5 ms a track: 10 / 5 * emulation_speed,
      truncated to a whole number. */
  function Increment(speed: real): (n: nat)
    requires speed >= 0.0
    ensures n == 0 <==> speed < 0.5
    ensures n as real <= 2.0 * speed < n as real + 1.0
  {
    var perRound := TRACKS_A_ROUND as real;
    assert perRound == 2.0;
    var tracks := perRound * speed;
    tracks.Floor
  }

  /** The seek ends exactly when the drive moves at all, which below half the normal
      emulation speed it does not, or is at the track already. */
  lemma SeekEnds(cylinder: nat, track: nat, speed: real)
    requires speed >= 0.0
    ensures (exists n: nat :: SeekSteps(cylinder, track, Increment(speed), n) == track)
            <==> speed >= 0.5 || cylinder == track
  {
    assert Increment(speed) == 0 <==> speed < 0.5;
    if speed >= 0.5 {
      var n := SeekArrives(cylinder, track, Increment(speed));
      assert SeekSteps(cylinder, track, Increment(speed), n) == track;
    } else {
      forall n: nat ensures SeekSteps(cylinder, track, 0, n) == cylinder {
        SeekStalls(cylinder, track, n);
      }
      assert SeekSteps(cylinder, track, 0, 0) == cylinder;
    }
  }
}
