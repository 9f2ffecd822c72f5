/** The RX01 box: two drives (rx0102drive.cpp) and the processor that runs the
    microprogram (rx0102ucpu.cpp), with their state changed in place. */
module Rx01 {
  import opened Words
  import opened StorageImage
  import opened Rx01Program
  import opened Rx01Commands

  class RxDrive {
    var cylinder: nat
    var isOpen: bool
    var readOnly: bool
    var track0: bool           // imagetrack0
    const image: BinFile

    constructor ()
      ensures fresh(image) && !isOpen
    {
      cylinder, isOpen, readOnly, track0 := 0, false, false, true;
      image := new BinFile();
    }

    ghost function Content(): Disk
      reads this, image
    {
      Disk(isOpen, readOnly, track0, image.Content())
    }

    /** sector_read: the first bytes of the buffer are overwritten. */
    method SectorRead(buffer: array<Byte>, track: nat, sector: nat) returns (ok: bool)
      requires buffer.Length >= SECTOR_BYTES
      modifies buffer, image`failed
      ensures ok == (OnDisk(track, sector) && isOpen)
      ensures ok ==> buffer[..] == ReadSector(old(Content()), track, sector) + old(buffer[SECTOR_BYTES..])
                     && Content() == PassSector(old(Content()), track, sector)
      ensures !ok ==> buffer[..] == old(buffer[..]) && Content() == old(Content())
    {
      if track >= TRACKS || sector < 1 || sector > SECTORS || !isOpen {
        return false;
      }
      var bytes;
      if !track0 && track == 0 {
        bytes := new Byte[SECTOR_BYTES](_ => 0);
        assert bytes[..] == Zeros(SECTOR_BYTES);
      } else {
        var t := if track0 then track else track - 1;
        bytes := image.Read(SectorOffset(t, sector), SECTOR_BYTES);
      }
      CopyIn(bytes, buffer);
      return true;
    }

    static method CopyIn(bytes: array<Byte>, buffer: array<Byte>)
      requires bytes.Length <= buffer.Length && bytes != buffer
      modifies buffer
      ensures buffer[..] == bytes[..] + old(buffer[bytes.Length..])
    {
      var k := 0;
      while k < bytes.Length
        invariant 0 <= k <= bytes.Length
        invariant forall j | 0 <= j < k :: buffer[j] == bytes[j]
        invariant forall j | k <= j < buffer.Length :: buffer[j] == old(buffer[j])
      {
        buffer[k] := bytes[k];
        k := k + 1;
      }
      assert buffer[..] == bytes[..] + old(buffer[bytes.Length..]);
    }

    /** sector_write: the first bytes of the buffer go to the image. */
    method SectorWrite(buffer: array<Byte>, track: nat, sector: nat) returns (ok: bool)
      requires buffer.Length >= SECTOR_BYTES
      modifies image
      ensures ok == (OnDisk(track, sector) && isOpen)
      ensures ok ==> Content() == WriteSector(old(Content()), track, sector, buffer[..SECTOR_BYTES])
      ensures !ok ==> Content() == old(Content())
    {
      if track >= TRACKS || sector < 1 || sector > SECTORS || !isOpen {
        return false;
      }
      if readOnly || (!track0 && track == 0) {
        return true;
      }
      var t := if track0 then track else track - 1;
      var bytes := new Byte[SECTOR_BYTES](i requires 0 <= i < SECTOR_BYTES reads buffer => buffer[i]);
      assert bytes[..] == buffer[..SECTOR_BYTES];
      image.Write(SectorOffset(t, sector), bytes);
      return true;
    }

    /** pgmstep_seek, for a drive that moves. */
    method Seek(track: nat, increment: nat)
      requires increment > 0 || cylinder == track
      modifies `cylinder
      ensures cylinder == track
    {
      while track > cylinder
        invariant increment > 0 || cylinder == track
        invariant cylinder == old(cylinder) || cylinder <= track
        decreases track - cylinder
      {
        cylinder := cylinder + increment;
        if cylinder >= track {
          cylinder := track;
        }
      }
      while track < cylinder
        invariant track <= cylinder && (increment > 0 || cylinder == track)
        decreases cylinder
      {
        if cylinder - track <= increment {
          cylinder := track;
        } else {
          cylinder := cylinder - increment;
        }
      }
    }
  }

  class RxBox {
    const drive0: RxDrive
    const drive1: RxDrive
    const speed: real                    // emulation_speed
    const buffer: array<Byte>            // sector_buffer
    var function_: Function
    var unit: nat
    var program: seq<Step>
    var pc: nat
    var thread: Thread
    var signals: Signals                 // to the controller
    var port: Port                       // RXDB, and what passes through it

    ghost function State(): Cpu
      reads this, buffer, drive0, drive1, drive0.image, drive1.image
    {
      Cpu(function_, unit, program, pc, thread, signals, port,
          Box(buffer[..], drive0.Content(), drive1.Content()))
    }

    ghost predicate Ok()
      reads this, buffer, drive0, drive1, drive0.image, drive1.image
    {
      && Rx01Program.Valid(State()) && speed >= 0.5
      && drive0 != drive1 && drive0.image != drive1.image && buffer.Length == BUFFER_BYTES
    }

    /** Power on: nothing to do yet. */
    constructor (speed: real)
      requires speed >= 0.5
      ensures Ok() && fresh(drive0) && fresh(drive1) && fresh(buffer) && Idle(State())
    {
      this.speed := speed;
      drive0 := new RxDrive();
      drive1 := new RxDrive();
      buffer := new Byte[BUFFER_BYTES];
      function_, unit, program, pc, thread := SetMediaDensity, 0, [], 0, Running;
      signals := Signals(true, false, false);
      port := Port(0, 0, 0, 0, 0, 0, 0);
    }

    function Selected(): RxDrive
      reads this
    {
      if unit == 0 then drive0 else drive1
    }

    /** step_done */
    method StepDone()
      modifies `signals, `port
      ensures State() == Finish(old(State()))
    {
      signals := signals.(done := true, request := false);
      port := port.(rxdb := port.rxes);
    }

    /** go(), called when DONE is set */
    method GoFunction(f: Function, u: nat)
      requires Ok() && Complete(State()) && u < 2
      modifies this, buffer
      ensures Ok() && State() == Go(old(State()), f, u)
    {
      GoKeepsValid(State(), f, u);
      hide Rx01Program.Valid;
      Prepare(f, u);
      if f == SetMediaDensity {
        StepDone();
      }
    }

    /** The part of go() that sets up the program. */
    method Prepare(f: Function, u: nat)
      requires u < 2 && buffer.Length == BUFFER_BYTES
      modifies this, buffer
      ensures f == SetMediaDensity ==> Finish(State()) == Go(old(State()), f, u)
      ensures f != SetMediaDensity ==> State() == Go(old(State()), f, u)
    {
      PreparePort(f, u);
      if f == FillBuffer {
        ClearBuffer();
      }
      function_, unit, program, pc, thread := f, u, ProgramOf(f), 0, Running;
      signals := Signals(false, false, false);
    }

    method PreparePort(f: Function, u: nat)
      modifies `port
      ensures port == old(port).(count := TransferCount(f),
                rxes := if f == ReadStatus && DiskOf(old(State()).box, u).open then 0x80 else 0,
                errorCode := if ClearsErrorCode(f) then 0 else old(port).errorCode)
    {
      var ready := if u == 0 then drive0.isOpen else drive1.isOpen;
      port := port.(count := TransferCount(f), rxes := if f == ReadStatus && ready then 0x80 else 0,
                    errorCode := if f != ReadStatus && f != ReadErrorCode then 0 else port.errorCode);
    }

    method ClearBuffer()
      requires buffer.Length == BUFFER_BYTES
      modifies buffer
      ensures buffer[..] == Zeros(BUFFER_BYTES)
    {
      forall i | 0 <= i < buffer.Length {
        buffer[i] := 0;
      }
    }

    /** init() */
    method InitBox()
      requires Ok() && Complete(State())
      modifies `unit, `program, `pc, `thread, `signals, `port, drive0`cylinder, drive1`cylinder
      ensures State() == Init(old(State()))
    {
      signals := Signals(false, false, false);
      drive0.cylinder, drive1.cylinder := 0, 0;
      unit, program, pc, thread := 0, [SeekTrack, SectorRead, InitDone], 0, Running;
      port := port.(rxdb := 0, rxes := 0, errorCode := 0, rxta := 1, rxsa := 1);
    }

    /** rxdb_after_write */
    method RxdbAfterWrite(w: Word)
      requires Ok()
      modifies `signals, `port, `thread, buffer
      ensures Ok() && State() == WriteRxdb(old(State()), w)
    {
      WriteKeepsValid(State(), w);
      hide Rx01Program.Valid, AcceptTrack, AcceptSector, EndTransfer;
      if pc >= |program| {
        port := port.(rxdb := w);
        return;
      }
      if port.idx >= port.count {
        return;
      }
      var complete := false;
      match function_ {
        case FillBuffer =>
          buffer[port.idx] := w % 0x100;
          port := port.(idx := port.idx + 1);
          complete := port.idx >= port.count;
        case ReadSectorData => complete := AcceptAddress(w);
        case WriteSectorData => complete := AcceptAddress(w);
        case WriteDeletedData => complete := AcceptAddress(w);
        case _ =>
      }
      if complete {
        EndOfTransfer();
      }
    }

    /** First the sector, then the track. */
    method AcceptAddress(w: Word) returns (complete: bool)
      modifies `signals, `port
      ensures complete == (old(port.idx) != 0)
      ensures State() == if complete then AcceptTrack(old(State()), w % 0x80) else AcceptSector(old(State()), w % 0x20)
    {
      complete := port.idx != 0;
      if complete {
        var bad := w % 0x80 >= TRACKS;
        signals := signals.(error := signals.error || bad);
        port := port.(rxta := w % 0x80, idx := port.idx + 1, errorCode := if bad then 0x20 else port.errorCode);
      } else {
        var bad := w % 0x20 < 1 || w % 0x20 > SECTORS;
        signals := signals.(error := signals.error || bad);
        port := port.(rxsa := w % 0x20, idx := port.idx + 1, errorCode := if bad then 0x38 else port.errorCode);
      }
    }

    /** Withdraws the transfer request and wakes the worker. */
    method EndOfTransfer()
      modifies `signals, `thread
      ensures State() == EndTransfer(old(State()))
    {
      signals := signals.(request := false);
      if thread == Waiting {
        thread := Signalled;
      }
    }

    /** rxdb_after_read; the word the host gets is the RXDB before. */
    method RxdbAfterRead() returns (w: Word)
      requires Ok()
      modifies `signals, `port, `thread
      ensures Ok() && State() == ReadRxdb(old(State())) && w == old(port.rxdb)
    {
      ReadKeepsValid(State());
      hide Rx01Program.Valid, EndTransfer;
      w := port.rxdb;
      if pc >= |program| || port.idx >= port.count {
        return;
      }
      if function_ == EmptyBuffer || function_ == ReadErrorCode {
        if port.idx + 1 < port.count {
          port := port.(idx := port.idx + 1, rxdb := buffer[port.idx + 1]);
        } else {
          port := port.(idx := port.idx + 1);
          EndOfTransfer();
        }
      }
    }

    /** step_sector_write */
    method StepSectorWrite()
      requires Ok()
      modifies `signals, `port, drive0.image, drive1.image
      ensures State() == StepEffect(old(State()), SectorWrite)
    {
      hide Rx01Program.WriteSector, OnDisk;
      var ok := Selected().SectorWrite(buffer, port.rxta, port.rxsa);
      EndSectorStep(ok);
    }

    /** step_sector_read */
    method StepSectorRead()
      requires Ok()
      modifies `signals, `port, buffer, drive0.image`failed, drive1.image`failed
      ensures State() == StepEffect(old(State()), SectorRead)
    {
      hide Rx01Program.ReadSector, PassSector, OnDisk;
      var ok := Selected().SectorRead(buffer, port.rxta, port.rxsa);
      EndSectorStep(ok);
    }

    /** No medium means no clock from the data separator. */
    method EndSectorStep(ok: bool)
      modifies `signals, `port
      ensures signals == old(signals).(error := !ok)
      ensures port == if ok then old(port) else old(port).(errorCode := 0x48)
    {
      signals := signals.(error := !ok);
      port := if ok then port else port.(errorCode := 0x48);
    }

    /** step_execute, for the steps that do not transfer. */
    method StepExecute(step: Step)
      requires Ok() && !Transfers(step)
      modifies this, buffer, drive0.image, drive1.image, drive0`cylinder, drive1`cylinder
      ensures State() == StepEffect(old(State()), step)
    {
      hide Rx01Program.Valid, Rx01Program.ReadSector, Rx01Program.WriteSector, PassSector;
      match step {
        case SeekTrack => Selected().Seek(port.rxta, Increment(speed));
        case SectorWrite => StepSectorWrite();
        case SectorRead => StepSectorRead();
        case InitDone =>
          var ready := Selected().isOpen;
          port := port.(rxes := 0x04 + if ready then 0x80 else 0);
          StepDone();
        case DoneReadErrorCode =>
          StepDone();
          port := port.(rxdb := port.errorCode);
        case DoneStep => StepDone();
        case _ =>
      }
    }

    /** The part of a transfer step before it waits. */
    method TransferStep(step: Step)
      requires buffer.Length == BUFFER_BYTES
      modifies `thread, `signals, `port
      ensures State() == BeginTransfer(old(State()), step)
    {
      port := port.(idx := 0, rxdb := if step == TransferBufferRead then buffer[0] else port.rxdb);
      signals := signals.(request := true);
      thread := Waiting;
    }

    /** step_next, and program_clear after an error */
    method EndOfRound()
      modifies `program, `pc, `thread, `signals, `port
      ensures State() == NextStep(old(State()))
    {
      pc, thread := pc + 1, Running;
      if signals.error {
        program, pc := [], 0;
        StepDone();
      }
    }

    /** worker(), until it waits for the controller. */
    method Worker()
      requires Ok()
      modifies this, buffer, drive0.image, drive1.image, drive0`cylinder, drive1`cylinder
      ensures Ok() && State() == RunWorker(old(State())) && Blocked(State())
    {
      hide Work, RunWorker;
      while pc < |program| && thread != Waiting
        invariant Ok() && RunWorker(State()) == RunWorker(old(State()))
        decreases if Complete(State()) then 0 else |program| - pc, if thread == Running then 1 else 0
      {
        RunUnfolds(State());
        WorkProgress(State());
        Round();
      }
      RunStops(State());
    }

    /** One round of worker(). */
    method Round()
      requires Ok() && !Blocked(State())
      modifies this, buffer, drive0.image, drive1.image, drive0`cylinder, drive1`cylinder
      ensures Ok() && State() == Work(old(State()))
    {
      WorkKeepsValid(State());
      hide Rx01Program.Valid, StepEffect, NextStep, BeginTransfer;
      if thread == Signalled {
        EndOfRound();
      } else {
        var step := program[pc];
        if Transfers(step) {
          TransferStep(step);
        } else {
          StepExecute(step);
          EndOfRound();
        }
      }
    }
  }
}
