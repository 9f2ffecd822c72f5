/** The RL01/RL02 drive (rl0102.cpp): spin-up, load, seek and lock-on, and the
    commands the controller gives it. */
module Rl0102 {
  import opened Words
  import opened StorageImage
  import opened ImageOfWords
  import opened RlPlatter
  import RlCrc

  // ---- the seek -----------------------------------------------------------

  const NO_HEAD := 0xff

  datatype Arm = Arm(cylinder: nat, head: nat, toCylinder: nat, toHead: nat, locked: bool)

  /** Tracks the arm can pass in one call of state_seek. */
  function SeekIncrement(rl02: bool): nat {
    var increment := 512 * 10 / 100;
    if rl02 then increment else increment / 2
  }

  /** One call of state_seek with RUN pressed and no fault. */
  function SeekStep(a: Arm, increment: nat): Arm {
    if a.toHead != a.head then a.(head := a.toHead)
    else if a.toCylinder > a.cylinder then
      if a.cylinder + increment >= a.toCylinder then a.(cylinder := a.toCylinder, locked := true)
      else a.(cylinder := a.cylinder + increment)
    else
      if a.cylinder - a.toCylinder <= increment then a.(cylinder := a.toCylinder, locked := true)
      else a.(cylinder := a.cylinder - increment)
  }

  function SeekSteps(a: Arm, increment: nat, n: nat): Arm
    decreases n
  {
    if n == 0 then a else SeekSteps(SeekStep(a, increment), increment, n - 1)
  }

  function Distance(a: Arm): nat { Abs(a.toCylinder - a.cylinder) }

  /** A call for the head switch, and at least one for the cylinders. */
  function SeekCalls(a: Arm, increment: nat): nat
    requires increment > 0
  {
    (if a.head != a.toHead then 1 else 0)
    + (if Distance(a) <= increment then 1 else CeilDiv(Distance(a), increment))
  }

  function CeilDiv(x: nat, y: nat): (q: nat)
    requires y > 0
  {
    QuotientBounds(x + y - 1, y, 0, x + y);
    (x + y - 1) / y
  }

  lemma CeilDivStep(x: nat, y: nat)
    requires y > 0 && x > y
    ensures CeilDiv(x, y) == CeilDiv(x - y, y) + 1
    ensures x - y <= y ==> CeilDiv(x - y, y) == 1
  {
    var q := (x - 1) / y;
    QuotientIsNat(x - 1, y);
    MulStep(y, q);
    QuotientIs(x + y - 1, y, q + 1, (x - 1) % y);
    if x - y <= y {
      QuotientIs(x - y + y - 1, y, 1, x - y - 1);
    }
  }

  /** The arm locks on to its target after exactly so many calls, and not before. */
  lemma {:induction false} SeekArrives(a: Arm, increment: nat)
    requires !a.locked && increment > 0
    ensures SeekSteps(a, increment, SeekCalls(a, increment))
            == Arm(a.toCylinder, a.toHead, a.toCylinder, a.toHead, true)
    ensures forall n: nat | n < SeekCalls(a, increment) :: !SeekSteps(a, increment, n).locked
    decreases Distance(a), if a.head != a.toHead then 1 else 0
  {
    var b := SeekStep(a, increment);
    if !b.locked {
      if a.head == a.toHead {
        CeilDivStep(Distance(a), increment);
      }
      SeekArrives(b, increment);
      forall n: nat | n < SeekCalls(a, increment) ensures !SeekSteps(a, increment, n).locked {
        if n > 0 {
          assert !SeekSteps(b, increment, n - 1).locked;
        }
      }
    }
  }

  // ---- the drive ----------------------------------------------------------

  datatype DriveState =
    PowerOff | LoadCartridge | SpinUp | BrushCycle | LoadHeads | Seek | LockOn | UnloadHeads | SpinDown

  const FULL_RPM := 2400
  const RPM_INCREMENT := 2400 / (25 * 10)

  /** `rpm_increment *= emulation_speed`: the product is truncated to a whole number. */
  function SpinIncrement(speed: real): (n: nat)
    requires speed >= 0.0
    ensures n == 0 <==> speed < 1.0 / 9.0
  {
    ((RPM_INCREMENT as real) * speed).Floor
  }

  /** The speed after n rounds of spinning up. */
  function SpunUp(rotation: nat, increment: nat, n: nat): nat
    decreases n
  {
    if n == 0 then rotation else SpunUp(rotation + increment, increment, n - 1)
  }

  lemma {:induction false} SpinsFaster(rotation: nat, increment: nat, n: nat)
    ensures increment > 0 ==> SpunUp(rotation, increment, n) >= rotation + n
    ensures increment == 0 ==> SpunUp(rotation, increment, n) == rotation
    decreases n
  {
    if n > 0 {
      SpinsFaster(rotation + increment, increment, n - 1);
    }
  }

  /** A drive comes up to speed if and only if its speed grows at all, which below a
      ninth of the normal emulation speed it does not. */
  lemma SpinUpEnds(rotation: nat, speed: real)
    requires speed >= 0.0
    ensures ComesUp(rotation, SpinIncrement(speed)) <==> speed >= 1.0 / 9.0 || rotation > FULL_RPM
  {
    var increment := SpinIncrement(speed);
    if increment > 0 {
      SpinsFaster(rotation, increment, FULL_RPM + 1);
    } else {
      SpinsFaster(rotation, increment, 0);
      if n: nat :| SpunUp(rotation, increment, n) > FULL_RPM {
        SpinsFaster(rotation, increment, n);
      }
    }
  }

  ghost predicate ComesUp(rotation: nat, increment: nat) {
    exists n: nat :: SpunUp(rotation, increment, n) > FULL_RPM
  }

  class Rl0102 {
    var rl02: bool
    var state: DriveState
    var cylinder: nat
    var head: nat
    var seekCylinder: nat
    var seekHead: nat
    var segment: nat           // next_sector_segment_under_heads
    var rotation: nat          // rotation_umin
    var speed: real            // emulation_speed
    var ready: bool            // drive_ready_line
    var fault: bool            // fault_lamp
    var volumeCheck: bool
    var wge: bool
    var powerSwitch: bool
    var runStop: bool
    var coverOpen: bool
    var writeProtect: bool     // writeprotect_button or read-only image
    const image: BinFile

    function Cylinders(): nat
      reads `rl02
    {
      if rl02 then 512 else 256
    }

    ghost predicate Targets()
      reads this
    {
      && seekCylinder < Cylinders() && seekHead < 2 && cylinder < Cylinders()
      && (head == seekHead || head == NO_HEAD)
    }

    /** Kept by every member: a drive that is locked on stands where it was sent. */
    ghost predicate Valid()
      reads this
    {
      && segment < 80 && speed >= 0.0
      && (state == Seek || state == LockOn ==> Targets())
      && (state == LockOn ==> head == seekHead && cylinder == seekCylinder)
    }

    constructor (speed: real)
      requires speed >= 0.0
      ensures Valid() && state == PowerOff && fresh(image)
    {
      rl02, state, cylinder, head, seekCylinder, seekHead := true, PowerOff, 0, 0, 0, 0;
      segment, rotation, this.speed := 0, 0, speed;
      ready, fault, volumeCheck, wge := false, false, false, false;
      powerSwitch, runStop, coverOpen, writeProtect := false, false, false, false;
      image := new BinFile();
    }

    ghost function CurrentArm(): Arm
      reads this
    {
      Arm(cylinder, head, seekCylinder, seekHead, state == LockOn)
    }

    /** set_type; the type parameter is read-only unless the power is off. */
    method SetType(newRl02: bool) returns (ok: bool)
      requires Valid()
      modifies `rl02
      ensures Valid()
      ensures ok == (state == PowerOff)
      ensures rl02 == (if ok then newRl02 else old(rl02)) && Cylinders() == (if rl02 then 512 else 256)
    {
      ok := state == PowerOff;
      if ok {
        rl02 := newRl02;
      }
    }

    method CmdSeek(destinationCylinder: nat, destinationHead: nat) returns (ok: bool)
      requires Valid() && destinationCylinder < Cylinders() && destinationHead < 2
      modifies `state, `head, `seekCylinder, `seekHead, `ready
      ensures Valid()
      ensures ok == (old(state) == LockOn)
      ensures ok ==> state == Seek && !ready
                     && CurrentArm() == Arm(cylinder, NO_HEAD, destinationCylinder, destinationHead, false)
      ensures !ok ==> unchanged(this)
    {
      if state != LockOn {
        return false;
      }
      seekCylinder, seekHead := destinationCylinder, destinationHead;
      head := NO_HEAD;
      ready := false;
      state := Seek;
      return true;
    }

    method StatePowerOff()
      requires Valid() && state == PowerOff
      modifies `state, `ready, `volumeCheck
      ensures Valid() && !ready && volumeCheck
      ensures state == if powerSwitch then LoadCartridge else PowerOff
    {
      volumeCheck := true;
      ready := false;
      if powerSwitch {
        state := LoadCartridge;
      }
    }

    /** `opens` is the outcome of image_open(). */
    method StateLoadCartridge(opens: bool)
      requires Valid() && state == LoadCartridge
      modifies `state, `ready, `fault
      ensures Valid() && !ready
      ensures state == if runStop && !coverOpen && opens then SpinUp else LoadCartridge
      ensures fault == (runStop && !coverOpen && !opens)
    {
      ready := false;
      if runStop && !coverOpen {
        if opens {
          fault := false;
          state := SpinUp;
        } else {
          fault := true;
        }
      } else {
        fault := false;
      }
    }

    method StateSpinUp()
      requires Valid() && state == SpinUp
      modifies `state, `ready, `volumeCheck, `rotation, `cylinder
      ensures Valid() && !ready && volumeCheck
      ensures !runStop || fault ==> state == SpinDown && rotation == old(rotation)
      ensures runStop && !fault ==>
                state == if old(rotation) + SpinIncrement(speed) > FULL_RPM then BrushCycle else SpinUp
      ensures state == BrushCycle ==> rotation == FULL_RPM && cylinder == 0
      ensures state == SpinUp ==> rotation == old(rotation) + SpinIncrement(speed)
    {
      volumeCheck := true;
      ready := false;
      if !runStop || fault {
        state := SpinDown;
        return;
      }
      rotation := rotation + SpinIncrement(speed);
      if rotation > FULL_RPM {
        rotation := FULL_RPM;
        cylinder := 0;
        state := BrushCycle;
      }
    }

    method StateBrushCycle()
      requires Valid() && state == BrushCycle
      modifies `state, `ready
      ensures Valid() && !ready && state == LoadHeads
    {
      ready := false;
      state := LoadHeads;
    }

    /** The seek that follows finds track 0 of head 0. */
    method StateLoadHeads()
      requires Valid() && state == LoadHeads
      modifies `state, `ready, `cylinder, `head, `seekCylinder, `seekHead, `segment
      ensures Valid() && !ready && state == Seek && segment == 12
      ensures CurrentArm() == Arm(0, NO_HEAD, 0, 0, false)
    {
      ready := false;
      cylinder, seekCylinder, seekHead := 0, 0, 0;
      head := NO_HEAD;
      state := Seek;
      segment := 12;
    }

    method StateSeek()
      requires Valid() && state == Seek
      modifies `state, `ready, `cylinder, `head
      ensures Valid() && !ready
      ensures !runStop || fault ==> state == SpinDown && cylinder == old(cylinder) && head == old(head)
      ensures runStop && !fault ==>
                && state in {Seek, LockOn}
                && CurrentArm() == SeekStep(old(CurrentArm()), SeekIncrement(rl02))
    {
      ready := false;
      var increment := 512 * 10 / 100;
      if !rl02 {
        increment := increment / 2;
      }
      if !runStop || fault {
        state := SpinDown;
        return;
      }
      if seekHead != head {
        head := seekHead;
        return;
      }
      if seekCylinder > cylinder {
        cylinder := cylinder + increment;
        if cylinder >= seekCylinder {
          cylinder := seekCylinder;
          state := LockOn;
        }
      } else if cylinder - seekCylinder <= increment {
        cylinder := seekCylinder;
        state := LockOn;
      } else {
        cylinder := cylinder - increment;
      }
    }

    method StateLockOn()
      requires Valid() && state == LockOn
      modifies `state, `ready
      ensures Valid()
      ensures !runStop || fault ==> state == UnloadHeads && ready == old(ready)
      ensures runStop && !fault ==> state == LockOn && ready
    {
      if !runStop || fault {
        state := UnloadHeads;
        return;
      }
      ready := true;
    }

    method StateUnloadHeads()
      requires Valid() && state == UnloadHeads
      modifies `state, `ready
      ensures Valid() && !ready && state == SpinDown
    {
      ready := false;
      state := SpinDown;
    }

    method StateSpinDown()
      requires Valid() && state == SpinDown
      modifies `state, `ready, `rotation
      ensures Valid() && !ready
      ensures old(rotation) <= SpinIncrement(speed) ==> state == LoadCartridge && rotation == 0
      ensures old(rotation) > SpinIncrement(speed) ==>
                state == SpinDown && rotation == old(rotation) - SpinIncrement(speed)
    {
      ready := false;
      if rotation <= SpinIncrement(speed) {
        rotation := 0;
        state := LoadCartridge;
      } else {
        rotation := rotation - SpinIncrement(speed);
      }
    }

    /** One round of worker().  `clocked` is false for a drive that is enabled while
        its controller is not. */
    method Worker(clocked: bool, opens: bool)
      requires Valid()
      modifies this
      ensures Valid()
      ensures !powerSwitch ==> state == PowerOff && !ready
      ensures powerSwitch && old(state) == Seek && runStop && clocked && !old(fault) ==>
                && state in {Seek, LockOn} && !fault
                && CurrentArm() == SeekStep(old(CurrentArm()), SeekIncrement(rl02))
      ensures old(state) == LockOn && state == LockOn ==> CurrentArm() == old(CurrentArm()) && ready
      ensures state == LockOn && old(state) != LockOn ==> old(state) == Seek
      ensures (powerSwitch, runStop, rl02, seekCylinder, seekHead)
              == old((powerSwitch, runStop, rl02, seekCylinder, seekHead)) || old(state) == LoadHeads
      ensures (powerSwitch, runStop, rl02) == old((powerSwitch, runStop, rl02))
    {
      if !clocked {
        fault := true;
      }
      if !powerSwitch {
        state := PowerOff;
      }
      match state
      case PowerOff => StatePowerOff();
      case LoadCartridge => StateLoadCartridge(opens);
      case SpinUp => StateSpinUp();
      case BrushCycle => StateBrushCycle();
      case LoadHeads => StateLoadHeads();
      case Seek => StateSeek();
      case LockOn => StateLockOn();
      case UnloadHeads => StateUnloadHeads();
      case SpinDown => StateSpinDown();
    }

    /** worker() from the start of a seek until the drive locks on, with power on and
        RUN pressed throughout. */
    method FollowSeek() returns (rounds: nat)
      requires Valid() && state == Seek && powerSwitch && runStop && !fault
      modifies this
      ensures Valid() && state == LockOn
      ensures cylinder == old(seekCylinder) && head == old(seekHead)
      ensures rounds == SeekCalls(old(CurrentArm()), SeekIncrement(old(rl02)))
    {
      ghost var arm, increment := CurrentArm(), SeekIncrement(rl02);
      SeekArrives(arm, increment);
      rounds := 0;
      while state == Seek
        invariant Valid() && powerSwitch && runStop && !fault && state in {Seek, LockOn}
        invariant rl02 == old(rl02) && rounds <= SeekCalls(arm, increment)
        invariant CurrentArm() == SeekSteps(arm, increment, rounds)
        decreases SeekCalls(arm, increment) - rounds
      {
        SeekStepsNext(arm, increment, rounds);
        Worker(true, true);
        rounds := rounds + 1;
      }
    }

    /** DC power comes up. */
    method PowerUp()
      requires Valid()
      modifies `state
      ensures Valid() && state == PowerOff
    {
      state := PowerOff;
    }

    // ---- commands of the controller ---------------------------------------

    /** Disk address, a zero word and the CRC of the two. */
    method CmdReadNextSectorHeader(buffer: array<Word>) returns (ok: bool)
      requires Valid() && buffer.Length >= 3
      modifies `segment, buffer
      ensures Valid()
      ensures ok == (state == LockOn)
      ensures ok ==> segment == Advance(HeaderSegment(old(segment)))
                     && NextHeader(old(segment)) < SECTORS
                     && buffer[0] == HeaderWord(cylinder, head, NextHeader(old(segment))) && buffer[1] == 0
                     && RlCrc.ToBits(buffer[2]) == RlCrc.Crc([RlCrc.ToBits(buffer[0]), RlCrc.ToBits(0)])
      ensures !ok ==> segment == old(segment) && buffer[..] == old(buffer[..])
    {
      if state != LockOn {
        return false;
      }
      HeaderRead(segment);
      if segment % 2 == 1 {
        segment := Advance(segment);
      }
      var address := HeaderWord(cylinder, head, segment / 2);
      var crc := HeaderCrc(address);
      buffer[0], buffer[1], buffer[2] := address, 0, crc;
      segment := Advance(segment);
      return true;
    }

    /** The image offset, in words, of the data block that passes the head next. */
    ghost function PlaceUnderHead(): nat
      reads this
    {
      SectorOffset(cylinder, head, DataSegment(segment) / 2)
    }

    method CmdReadNextSectorData(buffer: array<Word>) returns (ok: bool)
      requires Valid() && buffer.Length == SECTOR_WORDS
      modifies `segment, buffer, image`failed
      ensures Valid()
      ensures ok == (state == LockOn)
      ensures ok ==> && segment == Advance(DataSegment(old(segment)))
                     && buffer[..] == WordsSeen(old(image.Content()), old(PlaceUnderHead()), SECTOR_WORDS)
                     && image.Content() == AfterReadWords(old(image.Content()), old(PlaceUnderHead()), SECTOR_WORDS)
      ensures !ok ==> segment == old(segment) && buffer[..] == old(buffer[..]) && image.failed == old(image.failed)
    {
      if state != LockOn {
        return false;
      }
      if segment % 2 == 0 {
        segment := Advance(segment);
      }
      var offset := SectorOffset(cylinder, head, segment / 2);
      ReadWords(image, offset, buffer);
      segment := Advance(segment);
      return true;
    }

    method CmdWriteNextSectorData(buffer: array<Word>) returns (ok: bool)
      requires Valid() && buffer.Length == SECTOR_WORDS
      modifies `segment, `wge, image
      ensures Valid()
      ensures ok == (state == LockOn)
      ensures !ok || writeProtect || !ready ==> segment == old(segment) && image.Content() == old(image.Content())
      ensures wge == if ok then writeProtect || !ready else old(wge)
      ensures ok && !writeProtect && ready ==>
                && segment == Advance(DataSegment(old(segment)))
                && image.Content()
                   == AfterWrite(old(image.Content()), 2 * old(PlaceUnderHead()), BytesOf(buffer[..]))
    {
      if state != LockOn {
        return false;
      }
      if writeProtect || !ready {
        wge := true;
        return true;
      }
      wge := false;
      if segment % 2 == 0 {
        segment := Advance(segment);
      }
      var offset := SectorOffset(cylinder, head, segment / 2);
      var bytes := ToBytes(buffer);
      image.Write(2 * offset, bytes);
      segment := Advance(segment);
      return true;
    }
  }

  method HeaderCrc(address: Word) returns (crc: Word)
    ensures RlCrc.ToBits(crc) == RlCrc.Crc([RlCrc.ToBits(address), RlCrc.ToBits(0)])
  {
    var covered := new RlCrc.Bits16[2][RlCrc.ToBits(address), RlCrc.ToBits(0)];
    var bits := RlCrc.CalcCrc(covered);
    assert covered[..] == [RlCrc.ToBits(address), RlCrc.ToBits(0)];
    RlCrc.BitsOfWord(bits);
    crc := RlCrc.ToWord(bits);
  }

  lemma {:induction false} SeekStepsNext(a: Arm, increment: nat, n: nat)
    ensures SeekSteps(a, increment, n + 1) == SeekStep(SeekSteps(a, increment, n), increment)
    decreases n
  {
    if n > 0 {
      SeekStepsNext(SeekStep(a, increment), increment, n - 1);
    }
  }
}
