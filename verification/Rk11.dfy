/** The RK11 controller with the selected RK05 (rk11.cpp, rk05.cpp): the loop of
    worker() over the sectors of a Write, Read or Write Check. */
module Rk11 {
  import opened Words
  import opened HostMemory
  import opened ImageOfWords
  import opened StorageImage
  import opened Rk11Transfer

  class Rk11 {
    var rkwc: Word
    var rkba: Word
    var mex: nat
    var rkda: Word
    var rkdb: Word
    var place: Place           // _rkda_sector, _rkda_surface, _rkda_cyl
    var unit: nat              // _rkda_drive
    var errors: Errors         // bits of RKER, with HE and ERR of RKCS
    var present: bool          // the selected drive is ready
    var memory: seq<Word>
    const image: BinFile

    constructor (memory: seq<Word>)
      ensures this.memory == memory && fresh(image) && place == Place(0, 0, 0)
    {
      rkwc, rkba, mex, rkda, rkdb, place, unit := 0, 0, 0, 0, 0, Place(0, 0, 0), 0;
      errors := Errors(false, false, false, false, false, false, false, false);
      present := false;
      this.memory := memory;
      image := new BinFile();
    }

    ghost function Snapshot(request: Request, until: nat, left: int, address: nat, abort: bool): Rk
      reads this, image
    {
      Rk(request, present, until, left, address, abort, rkdb, place, errors, image.Content(), memory)
    }

    /** A write to RKDA. */
    method WriteRkda(w: Word)
      modifies `rkda, `place, `unit
      ensures place == PlaceOf(w) && unit == w / 0x2000 && rkda == w
    {
      place := Place(w % 0x10, (w / 0x10) % 2, (w / 0x20) % 0x100);
      unit := w / 0x2000;
      RkdaOfFields(w);
      UpdateRkda();
    }

    /** update_RKDA; the bits of a cylinder number never reach the drive number. */
    method UpdateRkda()
      requires unit < 8 && place.cylinder < 0x100 && place.surface < 2 && place.sector < 0x10
      modifies `rkda
      ensures rkda == Rkda(unit, place)
    {
      rkda := unit * 0x2000 + place.cylinder * 0x20 + place.surface * 0x10 + place.sector;
    }

    /** validate_seek */
    method ValidateSeek() returns (ok: bool)
      modifies `errors
      ensures ok == (place.sector <= 11 && place.cylinder <= 202 && present)
      ensures ok ==> errors == old(errors)
      ensures !ok ==> errors == old(errors).(nxs := old(errors).nxs || place.sector > 11,
                                             nxc := old(errors).nxc || place.cylinder > 202,
                                             nxd := old(errors).nxd || !present, he := true, err := true)
    {
      var error := false;
      if place.sector > 11 {
        errors := errors.(nxs := true);
        error := true;
      }
      if place.cylinder > 202 {
        errors := errors.(nxc := true);
        error := true;
      }
      if !present {
        errors := errors.(nxd := true);
        error := true;
      }
      if error {
        errors := errors.(he := true, err := true);
      }
      ok := !error;
    }

    /** increment_RKDA */
    method IncrementRkda()
      requires unit < 8 && OnDisk(place)
      modifies `place, `rkda
      ensures place == NextPlace(old(place)) && rkda == Rkda(unit, place)
    {
      place := place.(sector := place.sector + 1);
      if place.sector > 11 {
        place := Place(0, place.surface + 1, place.cylinder);
        if place.surface > 1 {
          place := Place(0, 0, place.cylinder + 1);
        }
      }
      UpdateRkda();
    }

    method ReadSector(buffer: array<Word>)
      requires buffer.Length == SECTOR_WORDS
      modifies buffer, image`failed
      ensures buffer[..] == SectorWords(old(image.Content()), place)
      ensures image.Content() == AfterReadWords(old(image.Content()), WordPlace(place), SECTOR_WORDS)
    {
      ReadWords(image, WordPlace(place), buffer);
    }

    method WriteSector(buffer: array<Word>)
      requires buffer.Length == SECTOR_WORDS && OnDisk(place)
      modifies image
      ensures image.Content() == AfterWrite(old(image.Content()), 2 * WordPlace(place), BytesOf(buffer[..]))
    {
      var bytes := ToBytes(buffer);
      image.Write(2 * WordPlace(place), bytes);
    }

    /** dma_transfer to memory; with IBA only the last word arrives. */
    method DmaToMemory(iba: bool, address: nat, buffer: array<Word>, n: nat) returns (timeout: bool)
      requires 0 < n <= buffer.Length
      modifies `memory
      ensures timeout == TimesOut(iba, |memory|, address, n)
      ensures memory == ToMemory(iba, old(memory), address, buffer[..], n)
    {
      var success, end;
      if iba {
        var last := new Word[1][buffer[n - 1]];
        assert last[..1] == buffer[..][n - 1..n];
        memory, success, end := Dato(memory, address, last, 1);
      } else {
        assert buffer[..n] == buffer[..][..n];
        memory, success, end := Dato(memory, address, buffer, n);
      }
      timeout := !success;
    }

    /** dma_transfer from memory; with IBA the first word fills the buffer. */
    method DmaFromMemory(iba: bool, address: nat, buffer: array<Word>, n: nat) returns (timeout: bool)
      requires 0 < n <= SECTOR_WORDS == buffer.Length && forall i | 0 <= i < buffer.Length :: buffer[i] == 0
      modifies buffer
      ensures timeout == TimesOut(iba, |memory|, address, n)
      ensures buffer[..] == HostBuffer(iba, memory, address, n)
    {
      if iba {
        var success, end := Dati(memory, address, buffer, 1);
        assert buffer[..][0] == WordIn(memory, address, 1, 0);
        timeout := !success;
        var i := 1;
        while i < n
          invariant 1 <= i <= n
          invariant forall j | 0 <= j < SECTOR_WORDS ::
                      buffer[j] == if j < i then WordIn(memory, address, 1, 0) else 0
        {
          buffer[i] := buffer[0];
          i := i + 1;
        }
        assert buffer[..] == HostBuffer(iba, memory, address, n);
      } else {
        var success, end := Dati(memory, address, buffer, n);
        timeout := !success;
      }
    }

    /** No memory at the bus address. */
    method NonexistentMemory()
      modifies `errors
      ensures errors == old(errors).(nxm := true, he := true, err := true)
    {
      errors := errors.(nxm := true, he := true, err := true);
    }

    /** Read: the sector, or a header in its place, goes to memory; its last word to RKDB. */
    method ReadOne(request: Request, ghost until: nat, ghost left: int, address: nat, buffer: array<Word>, n: nat)
      returns (abort: bool)
      requires request.function_ == Function.Read && 0 < n <= SECTOR_WORDS == buffer.Length
      modifies `memory, `errors, `rkdb, buffer, image`failed
      ensures Snapshot(request, until, left, address, abort)
              == MoveRead(old(Snapshot(request, until, left, address, false)), n)
    {
      hide ToMemory, WordsSeen, AfterReadWords, TimesOut;
      Clear(buffer);
      if request.format {
        buffer[0] := FormatWord(place.cylinder);
        assert buffer[..] == [FormatWord(place.cylinder)] + DmaIn([], 0, 0, SECTOR_WORDS - 1);
      } else {
        ReadSector(buffer);
      }
      abort := DmaToMemory(request.iba, address, buffer, n);
      if abort {
        NonexistentMemory();
      } else {
        rkdb := buffer[n - 1];
      }
    }

    /** Write: a sector of words from memory, zeros behind the last. */
    method WriteOne(request: Request, ghost until: nat, ghost left: int, address: nat, buffer: array<Word>, n: nat)
      returns (abort: bool)
      requires request.function_ == Function.Write && 0 < n <= SECTOR_WORDS == buffer.Length && OnDisk(place)
      modifies `errors, buffer, image
      ensures Snapshot(request, until, left, address, abort)
              == MoveWrite(old(Snapshot(request, until, left, address, false)), n)
    {
      hide HostBuffer, WriteBytes, BytesOf, TimesOut;
      Clear(buffer);
      abort := DmaFromMemory(request.iba, address, buffer, n);
      if abort {
        NonexistentMemory();
      } else {
        WriteSector(buffer);
      }
    }

    /** Compares the first n words of two buffers. */
    method Compare(buffer: array<Word>, checkBuffer: array<Word>, n: nat, sse: bool) returns (abort: bool)
      requires n <= buffer.Length && n <= checkBuffer.Length
      modifies `errors
      ensures var mismatch := buffer[..n] != checkBuffer[..n];
              && errors == old(errors).(wce := old(errors).wce || mismatch, err := old(errors).err || mismatch)
              && abort == (sse && errors.wce)
    {
      abort := false;
      ghost var mismatch := false;
      var i := 0;
      while i < n && !abort
        invariant 0 <= i <= n && (abort ==> sse && mismatch)
        invariant mismatch <==> exists j :: 0 <= j < i && buffer[j] != checkBuffer[j]
        invariant errors == old(errors).(wce := old(errors).wce || mismatch, err := old(errors).err || mismatch)
        modifies `errors
      {
        if buffer[i] != checkBuffer[i] {
          errors := errors.(wce := true, err := true);
          abort := sse;
          mismatch := true;
        }
        i := i + 1;
      }
      if errors.wce && sse {
        abort := true;
      }
      assert forall j | 0 <= j < n :: buffer[j] == buffer[..n][j] && checkBuffer[j] == checkBuffer[..n][j];
    }

    /** Write Check: the words from memory and those of the sector side by side. */
    method CheckOne(request: Request, ghost until: nat, ghost left: int, address: nat, buffer: array<Word>, n: nat)
      returns (abort: bool)
      requires request.function_ == WriteCheck && 0 < n <= SECTOR_WORDS == buffer.Length
      modifies `errors, buffer, image`failed
      ensures Snapshot(request, until, left, address, abort)
              == MoveCheck(old(Snapshot(request, until, left, address, false)), n)
    {
      hide HostBuffer, WordsSeen, AfterReadWords, TimesOut;
      var checkBuffer := new Word[SECTOR_WORDS];
      Clear(buffer);
      ReadSector(checkBuffer);
      abort := DmaFromMemory(request.iba, address, buffer, n);
      if abort {
        NonexistentMemory();
      } else {
        assert buffer[..n] == buffer[..][..n] && checkBuffer[..n] == checkBuffer[..][..n];
        abort := Compare(buffer, checkBuffer, n, request.sse);
      }
    }

    /** The registers after a sector. */
    method CountSector(iba: bool, left: int, address: nat)
      requires unit < 8 && OnDisk(place)
      modifies `rkwc, `rkba, `mex, `place, `rkda
      ensures rkwc == (-left) % 0x1_0000 && place == NextPlace(old(place)) && rkda == Rkda(unit, place)
      ensures !iba ==> rkba == address % 0x1_0000 && mex == (address / 0x1_0000) % 4
      ensures iba ==> rkba == old(rkba) && mex == old(mex)
    {
      rkwc := (-left) % 0x1_0000;
      if !iba {
        rkba := address % 0x1_0000;
        mex := (address / 0x1_0000) % 4;
      }
      IncrementRkda();
    }

    /** One round of the loop at a valid disk address. */
    method TransferSector(request: Request, ghost until: nat, left: int, address: nat, buffer: array<Word>)
      returns (abort: bool, left': int, address': nat)
      requires until > 0 && left > 0 && unit < 8 && OnDisk(place) && present && buffer.Length == SECTOR_WORDS
      modifies this, buffer, image
      ensures Snapshot(request, until - 1, left', address', abort)
              == Step(old(Snapshot(request, until, left, address, false)))
      ensures place == NextPlace(old(place)) && unit == old(unit) && rkda == Rkda(unit, place)
      ensures rkwc == (-left') % 0x1_0000
      ensures !request.iba ==> rkba == address' % 0x1_0000 && mex == (address' / 0x1_0000) % 4
      ensures request.iba ==> rkba == old(rkba) && mex == old(mex)
    {
      hide MoveRead, MoveWrite, MoveCheck;
      var n := Chunk(request, left);
      match request.function_ {
        case Read => abort := ReadOne(request, until, left, address, buffer, n);
        case Write => abort := WriteOne(request, until, left, address, buffer, n);
        case WriteCheck => abort := CheckOne(request, until, left, address, buffer, n);
      }
      left' := left - n;
      address' := if request.iba then address else address + 2 * n;
      CountSector(request.iba, left', address');
    }

    ghost predicate Valid()
      reads this
    {
      && unit < 8 && place.cylinder < 0x100 && place.surface < 2 && place.sector < 0x10
      && rkda == Rkda(unit, place)
    }

    /** The loop of worker() for Write, Read and Write Check.  A new command arrives
        after `until` sectors. */
    method ReadWriteCommand(request: Request, start: nat, until: nat)
      returns (left: int, address: nat, abort: bool, ghost rest: nat)
      requires Valid()
      modifies this, image
      ensures Valid() && rest <= until
      ensures Snapshot(request, rest, left, address, abort)
              == Run(old(Snapshot(request, until, StartCount(rkwc), start, false)))
      ensures rkwc == (-left) % 0x1_0000
      ensures !request.iba && rest < until ==> rkba == address % 0x1_0000 && mex == (address / 0x1_0000) % 4
      ensures request.iba || rest == until ==> rkba == old(rkba) && mex == old(mex)
    {
      hide Step;
      var buffer := new Word[SECTOR_WORDS];
      var rounds := until;
      left, address, abort := StartCount(rkwc), start, false;
      while left > 0 && !abort
        invariant Valid() && rkwc == (-left) % 0x1_0000 && 0 <= rounds <= until
        invariant !request.iba && rounds < until ==> rkba == address % 0x1_0000 && mex == (address / 0x1_0000) % 4
        invariant request.iba || rounds == until ==> rkba == old(rkba) && mex == old(mex)
        invariant Run(Snapshot(request, rounds, left, address, abort))
                  == Run(old(Snapshot(request, until, StartCount(rkwc), start, false)))
        decreases rounds, if left > 0 && !abort then 1 else 0
      {
        ghost var s := Snapshot(request, rounds, left, address, abort);
        StepUnfolds(s);
        if rounds == 0 {
          abort := true;
        } else {
          var ok := ValidateSeek();
          if !ok {
            if place.cylinder > 202 {
              errors := errors.(ovr := true);
            }
            abort := true;
          } else {
            abort, left, address := TransferSector(request, rounds, left, address, buffer);
            rounds := rounds - 1;
          }
        }
      }
      rest := rounds;
    }
  }

  lemma RkdaOfFields(w: Word)
    ensures var p := PlaceOf(w);
            && w / 0x2000 < 8 && p.cylinder < 0x100 && p.surface < 2 && p.sector < 0x10
            && (w / 0x2000) * 0x2000 + p.cylinder * 0x20 + p.surface * 0x10 + p.sector == w
  {
    var a := w / 0x10;
    var b := a / 2;
    var c := b / 0x100;
    assert w == 0x10 * a + w % 0x10 && a == 2 * b + a % 2 && b == 0x100 * c + b % 0x100;
    QuotientIs(w, 0x20, b, (a % 2) * 0x10 + w % 0x10);
    QuotientIs(w, 0x2000, c, (b % 0x100) * 0x20 + (a % 2) * 0x10 + w % 0x10);
  }

  lemma StepUnfolds(s: Rk)
    requires s.left > 0 && !s.abort
    ensures Run(s) == Run(Step(s))
    ensures s.until == 0 ==> Step(s) == s.(abort := true)
    ensures s.until > 0 && !Seekable(s) ==> Step(s) == SeekError(s)
  {
  }
}
