/** The RL11 controller (rl11.cpp): its registers and silos, changed in place by
    state_seek, state_readwrite and the command loop. */
module Rl11 {
  import opened Words
  import opened HostMemory
  import opened StorageImage
  import opened ImageOfWords
  import opened RlPlatter
  import opened Rl11Transfer
  import Rl0102
  import RlCrc

  // ---- the target of a seek -----------------------------------------------

  /** The cylinder named by a disk address word: up or down by a difference, and
      back from the guard bands at both ends. */
  function SeekTarget(da: Word, cylinder: nat, cylinders: nat): nat
    requires cylinders > 0
  {
    var difference := da / 0x80;
    if (da / 4) % 2 == 1 then
      if cylinder + difference >= cylinders then (cylinders - 1) / 2 * 2 else cylinder + difference
    else
      if difference > cylinder then 0 else cylinder - difference
  }

  function SeekHead(da: Word): nat { (da / 0x10) % 2 }

  /** The word a host writes to DA for a seek: difference from bit 7 on, head in bit 4,
      direction in bit 2, and the marker in bit 0. */
  function SeekWord(difference: nat, head: nat, up: bool): Word
    requires difference < 512 && head < 2
  {
    difference * 0x80 + head * 0x10 + (if up then 4 else 0) + 1
  }

  lemma SeekFields(difference: nat, head: nat, up: bool, cylinder: nat, cylinders: nat)
    requires difference < 512 && head < 2 && cylinder < cylinders
    requires if up then cylinder + difference < cylinders else difference <= cylinder
    ensures var da := SeekWord(difference, head, up);
            && SeekHead(da) == head && da % 2 == 1 && (da / 8) % 2 == 0
            && SeekTarget(da, cylinder, cylinders) == if up then cylinder + difference else cylinder - difference
  {
    hide SeekWord;
    SeekWordBits(difference, head, up);
  }

  lemma SeekWordBits(difference: nat, head: nat, up: bool)
    requires difference < 512 && head < 2
    ensures var da := SeekWord(difference, head, up);
            && da / 0x80 == difference && (da / 0x10) % 2 == head && ((da / 4) % 2 == 1 <==> up)
            && da % 2 == 1 && (da / 8) % 2 == 0
  {
    var bit: int := if up then 1 else 0;
    var da: int := SeekWord(difference, head, up);
    assert da == difference * 0x80 + head * 0x10 + 4 * bit + 1;
    QuotientIs(da, 0x80, difference, head * 0x10 + 4 * bit + 1);
    QuotientIs(da, 0x10, difference * 8 + head, 4 * bit + 1);
    QuotientIs(difference * 8 + head, 2, difference * 4, head);
    QuotientIs(da, 8, difference * 0x10 + head * 2, 4 * bit + 1);
    QuotientIs(difference * 0x10 + head * 2, 2, difference * 8 + head, 0);
    QuotientIs(da, 4, difference * 0x20 + head * 4 + bit, 1);
    QuotientIs(difference * 0x20 + head * 4 + bit, 2, difference * 0x10 + head * 2, bit);
    QuotientIs(da, 2, difference * 0x40 + head * 8 + 2 * bit, 1);
    hide SeekWord;
  }

  lemma SeekTargetOnDisk(da: Word, cylinder: nat, cylinders: nat)
    requires cylinder < cylinders && cylinders % 2 == 0
    ensures var t := SeekTarget(da, cylinder, cylinders); var d := da / 0x80; var up := (da / 4) % 2 == 1;
            && t < cylinders
            && (up && cylinder + d < cylinders ==> t == cylinder + d)
            && (up && cylinder + d >= cylinders ==> t == cylinders - 2)
            && (!up && d <= cylinder ==> t == cylinder - d)
            && (!up && d > cylinder ==> t == 0)
            && Abs(t - cylinder) <= d
  {
  }

  lemma StoreWordsUses(s: Rw, host: seq<Word>, disk: seq<Word>, host': seq<Word>, disk': seq<Word>)
    requires s.command == WriteData || s.command == WriteCheck ==> host == host'
    requires s.command == WriteCheck ==> disk == disk'
    ensures Rl11Transfer.StoreWords(s, host, disk) == Rl11Transfer.StoreWords(s, host', disk')
  {
  }

  class Rl11 {
    const drive: Rl0102.Rl0102          // the selected drive
    var command: Command                // function_code
    var state: RwState
    var da: Word
    var addressMsb: nat
    var ba: Word
    var mp: Word
    var opi: bool
    var nxm: bool
    var writeCheck: bool
    var hnf: bool
    var memory: seq<Word>
    const silo: array<Word>
    const siloCompare: array<Word>
    const mprSilo: array<Word>
    ghost var headers: nat

    ghost predicate Valid()
      reads this, drive
    {
      && drive.Valid() && (drive.ready ==> drive.state == Rl0102.LockOn)
      && ba % 2 == 0
      && silo.Length == SECTOR_WORDS && siloCompare.Length == SECTOR_WORDS && mprSilo.Length == 3
      && silo != siloCompare
    }

    constructor (drive: Rl0102.Rl0102, memory: seq<Word>)
      requires drive.Valid() && !drive.ready
      ensures Valid() && this.drive == drive && this.memory == memory
    {
      this.drive, this.memory := drive, memory;
      command, state, da, addressMsb, ba, mp := ReadData, Done, 0, 0, 0, 0;
      opi, nxm, writeCheck, hnf := false, false, false, false;
      silo, siloCompare, mprSilo := new Word[SECTOR_WORDS], new Word[SECTOR_WORDS], new Word[3];
      headers := 0;
    }

    // ---- registers --------------------------------------------------------

    function Address(): nat
      reads `addressMsb, `ba
    {
      addressMsb * 0x1_0000 + ba
    }

    /** update_qunibus_address */
    method UpdateAddress(address: nat)
      requires address % 2 == 0
      modifies `addressMsb, `ba
      ensures Address() == address && ba % 2 == 0
      ensures ba == address % 0x1_0000 && addressMsb == address / 0x1_0000
    {
      addressMsb, ba := address / 0x1_0000, address % 0x1_0000;
    }

    /** get_MP_wordcount: the two's complement of MP */
    function Wordcount(): Word
      reads `mp
    {
      (0x1_0000 - mp) % 0x1_0000
    }

    /** set_MP_wordcount */
    method SetWordcount(count: Word)
      modifies `mp
      ensures Wordcount() == count && (mp + count == 0x1_0000 || mp + count == 0)
    {
      mp := (0x1_0000 - count) % 0x1_0000;
    }

    ghost function Snapshot(): Rw
      reads this, drive, drive.image
    {
      Rw(command, state, da, Address(), Wordcount(), opi, nxm, writeCheck, hnf,
         drive.ready, drive.cylinder, drive.head, drive.segment, drive.writeProtect, drive.wge,
         drive.image.Content(), memory, headers)
    }

    method ClearErrors()
      modifies `opi, `nxm, `writeCheck, `hnf
      ensures Snapshot() == Rl11Transfer.ClearErrors(old(Snapshot()))
    {
      opi, nxm, writeCheck, hnf := false, false, false, false;
    }

    /** do_operation_incomplete */
    method OperationIncomplete()
      modifies `opi, `state
      ensures Snapshot() == Fail(old(Snapshot()))
    {
      opi := true;
      state := Done;
    }

    method HeaderNotFound()
      modifies `hnf, `opi, `state
      ensures Snapshot() == Fail(old(Snapshot()).(hnf := true))
    {
      hnf := true;
      OperationIncomplete();
    }

    // ---- seek -------------------------------------------------------------

    /** state_seek */
    method StateSeek()
      requires Valid()
      modifies `state, `opi, drive`state, drive`head, drive`seekCylinder, drive`seekHead, drive`ready
      ensures Valid() && state == Done
      ensures opi == (old(opi) || !old(drive.ready))
      ensures old(drive.ready) && da % 2 == 1 && (da / 8) % 2 == 0 ==>
                && drive.state == Rl0102.Seek && !drive.ready && drive.rl02 == old(drive.rl02)
                && drive.CurrentArm()
                   == Rl0102.Arm(old(drive.cylinder), Rl0102.NO_HEAD,
                                 SeekTarget(da, old(drive.cylinder), drive.Cylinders()), SeekHead(da), false)
      ensures !old(drive.ready) || da % 2 == 0 || (da / 8) % 2 == 1 ==> unchanged(drive)
    {
      if !drive.ready {
        OperationIncomplete();
        return;
      }
      if da % 2 == 0 || (da / 8) % 2 == 1 {
        state := Done;
        return;
      }
      var target := SeekTarget(da, drive.cylinder, drive.Cylinders());
      SeekTargetOnDisk(da, drive.cylinder, drive.Cylinders());
      var ok := drive.CmdSeek(target, SeekHead(da));
      state := Done;
    }

    // ---- read and write ---------------------------------------------------

    /** The outcome of a DMA transfer. */
    method EndDma(success: bool, end: nat)
      requires end % 2 == 0
      modifies `nxm, `addressMsb, `ba
      ensures nxm == !success && Address() == end + 2 && ba % 2 == 0
    {
      nxm := !success;
      UpdateAddress(end + 2);
    }

    /** The sector under the head, into the silo. */
    method FillSilo()
      requires Valid() && drive.ready
      modifies drive`segment, drive.image`failed, silo
      ensures Valid() && silo[..] == SectorUnderHead(old(Snapshot()))
      ensures Snapshot() == old(Snapshot()).(segment := Advance(DataSegment(old(drive.segment))),
                file := AfterReadWords(old(drive.image.Content()), PlaceUnderHead(old(Snapshot())), SECTOR_WORDS))
    {
      hide WordsSeen, AfterReadWords, SectorOffset, DataSegment, Advance;
      Clear(silo);
      var _ := drive.CmdReadNextSectorData(silo);
    }

    /** Words of the silo to memory. */
    method SiloToMemory(n: nat)
      requires 0 < n <= silo.Length && ba % 2 == 0
      modifies `memory, `nxm, `addressMsb, `ba
      ensures memory == DmaOut(old(memory), old(Address()), silo[..n]) && ba % 2 == 0
      ensures nxm == (Existing(|old(memory)|, old(Address()), n) < n)
      ensures Address() == EndAddress(|old(memory)|, old(Address()), n) + 2
    {
      hide DmaOut, EndAddress, Existing;
      var memory', success, end := Dato(memory, Address(), silo, n);
      memory := memory';
      EndDma(success, end);
    }

    /** The sector under the head goes to memory. */
    method FetchSector(n: nat)
      requires Valid() && drive.ready && n == Chunk(Snapshot()) && n > 0
      requires command == ReadData || command == ReadDataWithoutHeaderCheck
      modifies `memory, `nxm, `addressMsb, `ba, drive`segment, drive.image`failed, silo
      ensures Valid() && Snapshot() == Rl11Transfer.MoveWords(old(Snapshot()))
    {
      hide DmaOut, EndAddress, Existing, SectorUnderHead, PlaceUnderHead, AfterReadWords, DataSegment, Advance, Address;
      FillSilo();
      SiloToMemory(n);
    }

    /** The sector under the head and the words of memory to compare it with. */
    method FetchBoth(n: nat)
      requires Valid() && drive.ready && n == Chunk(Snapshot()) && n > 0 && command == WriteCheck
      modifies `nxm, `addressMsb, `ba, drive`segment, drive.image`failed, silo, siloCompare
      ensures Valid() && Snapshot() == Rl11Transfer.MoveWords(old(Snapshot()))
      ensures siloCompare[..] == DmaIn(memory, old(Address()), n, SECTOR_WORDS)
      ensures silo[..] == SectorUnderHead(old(Snapshot()))
    {
      hide DmaIn, EndAddress, Existing, SectorUnderHead, PlaceUnderHead, AfterReadWords, DataSegment, Advance, Address;
      FillSilo();
      MemoryToSilo(siloCompare, n);
    }

    /** Words of memory to a silo. */
    method MemoryToSilo(target: array<Word>, n: nat)
      requires 0 < n <= target.Length == SECTOR_WORDS && ba % 2 == 0
      modifies `nxm, `addressMsb, `ba, target
      ensures target[..] == DmaIn(memory, old(Address()), n, SECTOR_WORDS) && ba % 2 == 0
      ensures nxm == (Existing(|memory|, old(Address()), n) < n)
      ensures Address() == EndAddress(|memory|, old(Address()), n) + 2
    {
      hide DmaIn, EndAddress, Existing;
      Clear(target);
      var success, end := Dati(memory, Address(), target, n);
      EndDma(success, end);
    }

    /** The words of memory that are to be written. */
    method FetchWords(n: nat)
      requires Valid() && drive.ready && n == Chunk(Snapshot()) && n > 0 && command == WriteData
      modifies `nxm, `addressMsb, `ba, silo
      ensures Valid() && Snapshot() == Rl11Transfer.MoveWords(old(Snapshot()))
      ensures silo[..] == DmaIn(memory, old(Address()), n, SECTOR_WORDS)
    {
      hide DmaIn, EndAddress, Existing, SectorOffset, DataSegment, Advance, Address;
      MemoryToSilo(silo, n);
    }

    /** Compares whole sectors, behind the last word zeros with what the disk has. */
    method CompareSilos()
      requires silo.Length == SECTOR_WORDS && siloCompare.Length == SECTOR_WORDS
      modifies `writeCheck
      ensures writeCheck <==> silo[..] != siloCompare[..]
    {
      writeCheck := false;
      var i := 0;
      while i < SECTOR_WORDS
        invariant 0 <= i <= SECTOR_WORDS
        invariant writeCheck <==> silo[..i] != siloCompare[..i]
        modifies `writeCheck
      {
        if silo[i] != siloCompare[i] {
          writeCheck := true;
        }
        assert silo[..i + 1] == silo[..i] + [silo[i]] && siloCompare[..i + 1] == siloCompare[..i] + [siloCompare[i]];
        i := i + 1;
      }
      assert silo[..] == silo[..i] && siloCompare[..] == siloCompare[..i];
    }

    /** What the disk does with the words fetched. */
    method StoreWords()
      requires Valid() && drive.ready
      modifies `writeCheck, drive`segment, drive`wge, drive.image
      ensures Valid()
      ensures Snapshot() == Rl11Transfer.StoreWords(old(Snapshot()),
                              if command == WriteCheck then siloCompare[..] else silo[..], silo[..])
    {
      hide SectorOffset, DataSegment, WriteBytes, BytesOf;
      if command == WriteData {
        var _ := drive.CmdWriteNextSectorData(silo);
      } else if command == WriteCheck {
        CompareSilos();
      }
    }

    method NextSector(n: nat)
      requires Valid() && n == Chunk(Snapshot()) && n > 0
      modifies `da, `mp, `state
      ensures Valid() && Snapshot() == Rl11Transfer.NextSector(old(Snapshot()))
    {
      var count := Wordcount();
      da := (da + 1) % 0x1_0000;
      var left := if count >= SECTOR_WORDS then count - SECTOR_WORDS else 0;
      SetWordcount(left);
      state := if left == 0 then Done else Disk;
    }

    method TransferSector()
      requires Valid() && drive.ready && Wordcount() > 0
      modifies this, drive`segment, drive`wge, drive.image, silo, siloCompare
      ensures Valid() && Snapshot() == Rl11Transfer.TransferSector(old(Snapshot()))
    {
      hide Rl11Transfer.MoveWords, Rl11Transfer.StoreWords, Rl11Transfer.NextSector, DmaIn, SectorUnderHead;
      var n := if Wordcount() > SECTOR_WORDS then SECTOR_WORDS else Wordcount();
      if command == WriteData {
        FetchWords(n);
      } else if command == WriteCheck {
        FetchBoth(n);
      } else {
        FetchSector(n);
      }
      if nxm {
        OperationIncomplete();
        return;
      }
      ghost var moved := Snapshot();
      ghost var host := DmaIn(old(memory), old(Address()), n, SECTOR_WORDS);
      StoreWordsUses(moved, if command == WriteCheck then siloCompare[..] else silo[..], silo[..],
                     host, SectorUnderHead(old(Snapshot())));
      StoreWords();
      NextSector(n);
    }

    lemma SnapshotIsValid()
      requires Valid() && drive.ready
      ensures Rl11Transfer.Valid(Snapshot())
    {
    }

    /** Reads the next header; tells whether it is the one of the wanted sector. */
    method ReadHeader() returns (found: bool)
      requires Valid() && drive.ready
      modifies `headers, drive`segment, mprSilo
      ensures Valid() && Snapshot() == Rl11Transfer.ReadHeader(old(Snapshot()))
      ensures Rl11Transfer.Valid(old(Snapshot())) && found == (SeenHeader(old(Snapshot())) == da)
    {
      hide Advance, HeaderSegment, NextHeader, HeaderWord, Address, Wordcount, RlCrc.Crc, RlCrc.ToBits;
      SnapshotIsValid();
      var _ := drive.CmdReadNextSectorHeader(mprSilo);
      headers := headers + 1;
      found := mprSilo[0] == da;
    }

    /** state_readwrite in state RL11_STATE_RW_DISK */
    method StateDisk()
      requires Valid() && drive.ready && state == Disk && Wordcount() > 0
      modifies this, drive`segment, drive`wge, drive.image, silo, siloCompare, mprSilo
      ensures Valid()
      ensures Rl11Transfer.Valid(old(Snapshot())) && Snapshot() == DiskPass(old(Snapshot()))
    {
      hide Rl11Transfer.Valid, Rl11Transfer.TransferSector, Rl11Transfer.ReadHeader, SeenHeader, OnTrack, Fail, Address;
      SnapshotIsValid();
      if command == ReadDataWithoutHeaderCheck {
        TransferSector();
      } else if OnTrack(drive.cylinder, drive.head, da) {
        var found := ReadHeader();
        if found {
          TransferSector();
        }
      } else {
        HeaderNotFound();
      }
    }

    /** state_readwrite */
    method StateReadWrite()
      requires Valid() && state != Done && (state == Disk ==> Wordcount() > 0)
      modifies this, drive`segment, drive`wge, drive.image, silo, siloCompare, mprSilo
      ensures Valid()
      ensures !old(drive.ready) ==> Snapshot() == Fail(old(Snapshot()))
      ensures old(drive.ready) ==> Proper(old(Snapshot())) && Snapshot() == Pass(old(Snapshot()))
    {
      hide DiskPass, OnTrack, Address, Wordcount;
      if !drive.ready {
        OperationIncomplete();
        return;
      }
      SnapshotIsValid();
      if state == Init {
        ClearErrors();
        state := if Wordcount() == 0 then Done else Disk;
      } else {
        StateDisk();
      }
    }

    /** The loop of worker() over one read or write command. */
    method Execute()
      requires Valid() && drive.ready && Proper(Snapshot())
      modifies this, drive`segment, drive`wge, drive.image, silo, siloCompare, mprSilo
      ensures Valid() && Snapshot() == Run(old(Snapshot()))
    {
      hide Pass, Run, Remaining;
      while state != Done
        invariant Valid() && drive.ready && Proper(Snapshot())
        invariant Run(Snapshot()) == Run(old(Snapshot()))
        decreases Phase(state), Wordcount(), Remaining(Snapshot())
      {
        RunStep(Snapshot());
        StateReadWrite();
      }
      RunDone(Snapshot());
    }
  }

  /** SEEK, followed by the drive until it locks on, with RUN pressed and no fault:
      the head switch takes one call of the drive's state_seek and the arm one for
      every increment of the distance, at least one. */
  method SeekAndLockOn(controller: Rl11) returns (calls: nat)
    requires controller.Valid() && controller.drive.ready
    requires controller.da % 2 == 1 && (controller.da / 8) % 2 == 0
    requires controller.drive.powerSwitch && controller.drive.runStop && !controller.drive.fault
    modifies controller, controller.drive
    ensures controller.drive.Valid() && controller.drive.state == Rl0102.LockOn
    ensures controller.drive.cylinder
            == SeekTarget(controller.da, old(controller.drive.cylinder), old(controller.drive.Cylinders()))
    ensures controller.drive.head == SeekHead(controller.da)
    ensures var distance := Abs(controller.drive.cylinder - old(controller.drive.cylinder));
            var increment := if old(controller.drive.rl02) then 51 else 25;
            calls == 1 + if distance <= increment then 1 else (distance + increment - 1) / increment
  {
    var drive := controller.drive;
    controller.StateSeek();
    calls := drive.FollowSeek();
  }

  lemma RunDone(s: Rw)
    requires Proper(s) && s.state == Done
    ensures Run(s) == s
  {
  }

  lemma RunStep(s: Rw)
    requires Proper(s) && s.state != Done
    ensures Proper(Pass(s)) && Run(s) == Run(Pass(s))
    ensures Phase(Pass(s).state) < Phase(s.state)
            || (Pass(s).state == s.state && Pass(s).count < s.count)
            || (Pass(s).state == s.state && Pass(s).count == s.count && 0 <= Remaining(Pass(s)) < Remaining(s))
  {
    if s.state == Disk {
      PassProgress(s);
    }
  }
}
