/** Write, Read and Write Check of the RK11 controller (the loop over sectors in
    worker() of rk11.cpp), as a function on its registers, the image of the
    selected RK05 and host memory. */
module Rk11Transfer {
  import opened Words
  import opened HostMemory
  import opened ImageOfWords
  import opened StorageImage

  const SECTOR_WORDS := 256
  const DISK_SECTORS := 203 * 2 * 12

  // ---- the disk address ---------------------------------------------------

  datatype Place = Place(sector: nat, surface: nat, cylinder: nat)

  /** The sector in image order. */
  function Linear(p: Place): nat { (p.cylinder * 2 + p.surface) * 12 + p.sector }

  /** increment_RKDA */
  function NextPlace(p: Place): Place {
    if p.sector + 1 > 11 then
      if p.surface + 1 > 1 then Place(0, 0, p.cylinder + 1) else Place(0, p.surface + 1, p.cylinder)
    else p.(sector := p.sector + 1)
  }

  predicate OnDisk(p: Place) { p.sector <= 11 && p.surface <= 1 && p.cylinder <= 202 }

  /** increment_RKDA goes to the next sector of the image, and off the disk behind the last. */
  lemma NextPlaceIsNextSector(p: Place)
    requires OnDisk(p)
    ensures Linear(NextPlace(p)) == Linear(p) + 1 && Linear(p) < DISK_SECTORS
    ensures OnDisk(NextPlace(p)) <==> Linear(p) + 1 < DISK_SECTORS
    ensures !OnDisk(NextPlace(p)) ==> NextPlace(p) == Place(0, 0, 203)
  {
  }

  /** The place in the image where read_sector and write_sector find a sector. */
  lemma SectorPlace(p: Place)
    ensures Geometry(203, 2, 12, 512).ImageOffset(p.cylinder, p.surface, p.sector) == 2 * (SECTOR_WORDS * Linear(p))
  {
  }

  /** The register RKDA, drive number in the upper bits. */
  function Rkda(drive: nat, p: Place): Word
    requires drive < 8 && p.cylinder < 0x100 && p.surface < 2 && p.sector < 0x10
  {
    drive * 0x2000 + p.cylinder * 0x20 + p.surface * 0x10 + p.sector
  }

  /** As update_RKDA joins it from the shifted fields. */
  lemma RkdaJoins(drive: nat, p: Place)
    requires drive < 8 && p.cylinder < 0x100 && p.surface < 2 && p.sector < 0x10
    ensures Rkda(drive, p)
            == Or(Or(Or(p.sector, p.surface * Pow2(4)), p.cylinder * Pow2(5)), drive * Pow2(13))
  {
    Pow2Values();
    assert Pow2(4) == 0x10 && Pow2(5) == 0x20 && Pow2(13) == 0x2000 by { Pow2Add(8, 5); }
    OrDisjoint(p.surface, p.sector, 4, 0x10);
    OrDisjoint(p.cylinder, p.surface * 0x10 + p.sector, 5, 0x20);
    OrDisjoint(drive, p.cylinder * 0x20 + p.surface * 0x10 + p.sector, 13, 0x2000);
  }

  /** The fields of RKDA as on_after_register_access takes them apart. */
  function PlaceOf(rkda: Word): Place { Place(rkda % 0x10, (rkda / 0x10) % 2, (rkda / 0x20) % 0x100) }

  /** Writing RKDA back gives the same address. */
  lemma RkdaFields(drive: nat, p: Place)
    requires drive < 8 && p.cylinder < 0x100 && p.surface < 2 && p.sector < 0x10
    ensures PlaceOf(Rkda(drive, p)) == p && Rkda(drive, p) / 0x2000 == drive
  {
    var w := Rkda(drive, p);
    QuotientIs(w, 0x10, drive * 0x200 + p.cylinder * 2 + p.surface, p.sector);
    QuotientIs(w / 0x10, 2, drive * 0x100 + p.cylinder, p.surface);
    QuotientIs(w, 0x20, drive * 0x100 + p.cylinder, p.surface * 0x10 + p.sector);
    QuotientIs(w / 0x20, 0x100, drive, p.cylinder);
    QuotientIs(w, 0x2000, drive, p.cylinder * 0x20 + p.surface * 0x10 + p.sector);
  }

  // ---- one round of the loop ----------------------------------------------

  datatype Function = Write | Read | WriteCheck

  /** What worker() copied from RKCS. */
  datatype Request = Request(function_: Function, format: bool, iba: bool, sse: bool)

  datatype Errors = Errors(nxs: bool, nxc: bool, nxd: bool, nxm: bool, ovr: bool, wce: bool, he: bool, err: bool)

  /** `left` and `address` are the local variables current_count and
      current_address.  A new command is written to RKCS after `until` more sectors. */
  datatype Rk = Rk(
    request: Request, present: bool, until: nat,
    left: int, address: nat, abort: bool, rkdb: Word, place: Place, errors: Errors,
    file: File, memory: seq<Word>)

  /** -(int16_t)RKWC, kept in an int16_t. */
  function StartCount(rkwc: Word): int {
    var c := -Signed16(rkwc);
    if c == 0x8000 then -0x8000 else c
  }

  /** RKWC holds the two's complement of the count; counts above 32767 mean nothing to do. */
  lemma StartCountMeaning(n: nat)
    requires n < 0x1_0000
    ensures var c := StartCount((0x1_0000 - n) % 0x1_0000);
            if n <= 0x7fff then c == n else c <= 0
  {
  }

  predicate Seekable(s: Rk) { s.place.sector <= 11 && s.place.cylinder <= 202 && s.present }

  /** validate_seek, when it fails, and its caller */
  function SeekError(s: Rk): Rk {
    var e := s.errors;
    var p := s.place;
    s.(errors := e.(nxs := e.nxs || p.sector > 11, nxc := e.nxc || p.cylinder > 202, nxd := e.nxd || !s.present,
                    ovr := e.ovr || p.cylinder > 202, he := true, err := true),
       abort := true)
  }

  function Chunk(r: Request, left: int): (n: int)
    ensures left > 0 ==> 0 < n <= SECTOR_WORDS && n <= left
  {
    if r.function_ == Function.Read && r.format then 1 else if left > SECTOR_WORDS then SECTOR_WORDS else left
  }

  /** First word of a sector in the image. */
  function WordPlace(p: Place): nat { SECTOR_WORDS * Linear(p) }

  function SectorWords(f: File, p: Place): (words: seq<Word>)
    ensures |words| == SECTOR_WORDS
  {
    WordsSeen(f, WordPlace(p), SECTOR_WORDS)
  }

  function FormatWord(cylinder: nat): Word { (cylinder * 0x20) % 0x1_0000 }

  /** A header is the disk address of the cylinder. */
  lemma HeaderIsAddress(cylinder: nat)
    requires cylinder < 0x100
    ensures FormatWord(cylinder) == Rkda(0, Place(0, 0, cylinder))
  {
  }

  /** What goes to memory: the sector, or a header made up from the address. */
  function ReadBuffer(format: bool, f: File, p: Place): (words: seq<Word>)
    ensures |words| == SECTOR_WORDS
  {
    if format then [FormatWord(p.cylinder)] + DmaIn([], 0, 0, SECTOR_WORDS - 1) else SectorWords(f, p)
  }

  function RepeatedWord(memory: seq<Word>, address: nat, n: nat, i: nat): Word {
    if i < n then WordIn(memory, address, 1, 0) else 0
  }

  /** What comes from memory; with IBA the first word fills the buffer. */
  function HostBuffer(iba: bool, memory: seq<Word>, address: nat, n: nat): (words: seq<Word>)
    ensures |words| == SECTOR_WORDS
  {
    if iba then seq<Word>(SECTOR_WORDS, i requires i >= 0 => RepeatedWord(memory, address, n, i))
    else DmaIn(memory, address, n, SECTOR_WORDS)
  }

  function ToMemory(iba: bool, memory: seq<Word>, address: nat, words: seq<Word>, n: nat): (m: seq<Word>)
    requires 0 < n <= |words|
    ensures |m| == |memory|
  {
    DmaOut(memory, address, if iba then words[n - 1..n] else words[..n])
  }

  predicate TimesOut(iba: bool, size: nat, address: nat, n: nat) {
    var words := if iba then 1 else n;
    Existing(size, address, words) < words
  }

  function NoMemory(s: Rk): Rk {
    s.(errors := s.errors.(nxm := true, he := true, err := true), abort := true)
  }

  function MoveRead(s: Rk, n: nat): Rk
    requires 0 < n <= SECTOR_WORDS
  {
    var words := ReadBuffer(s.request.format, s.file, s.place);
    var t := s.(memory := ToMemory(s.request.iba, s.memory, s.address, words, n),
                file := if s.request.format then s.file else AfterReadWords(s.file, WordPlace(s.place), SECTOR_WORDS));
    if TimesOut(s.request.iba, |s.memory|, s.address, n) then NoMemory(t) else t.(rkdb := words[n - 1])
  }

  function MoveWrite(s: Rk, n: nat): Rk {
    if TimesOut(s.request.iba, |s.memory|, s.address, n) then NoMemory(s)
    else
      var words := HostBuffer(s.request.iba, s.memory, s.address, n);
      s.(file := AfterWrite(s.file, 2 * WordPlace(s.place), BytesOf(words)))
  }

  function MoveCheck(s: Rk, n: nat): Rk
    requires 0 < n <= SECTOR_WORDS
  {
    var t := s.(file := AfterReadWords(s.file, WordPlace(s.place), SECTOR_WORDS));
    if TimesOut(s.request.iba, |s.memory|, s.address, n) then NoMemory(t)
    else
      var words := HostBuffer(s.request.iba, s.memory, s.address, n);
      var mismatch := words[..n] != SectorWords(s.file, s.place)[..n];
      var wce := s.errors.wce || mismatch;
      t.(errors := s.errors.(wce := wce, err := s.errors.err || mismatch), abort := s.request.sse && wce)
  }

  function Move(s: Rk, n: nat): Rk
    requires 0 < n <= SECTOR_WORDS
  {
    match s.request.function_
    case Read => MoveRead(s, n)
    case Write => MoveWrite(s, n)
    case WriteCheck => MoveCheck(s, n)
  }

  function Step(s: Rk): Rk
    requires s.left > 0
  {
    if s.until == 0 then s.(abort := true)
    else if !Seekable(s) then SeekError(s)
    else
      var n := Chunk(s.request, s.left);
      Move(s, n).(until := s.until - 1, left := s.left - n,
                  address := if s.request.iba then s.address else s.address + 2 * n,
                  place := NextPlace(s.place))
  }

  /** The whole loop. */
  function Run(s: Rk): (t: Rk)
    ensures t.left <= 0 || t.abort
    decreases s.until, if s.left <= 0 || s.abort then 0 else 1
  {
    if s.left <= 0 || s.abort then s else Run(Step(s))
  }

  // ---- how a command ends -------------------------------------------------

  /** A sector can be transferred: the loop is running and the address is valid. */
  predicate Going(s: Rk) {
    s.left > 0 && !s.abort && s.present && OnDisk(s.place) && s.address % 2 == 0
  }

  /** Plain transfers: no header, the bus address counts up, nothing stops them but errors. */
  predicate Plain(s: Rk) {
    !s.request.format && !s.request.iba && !s.request.sse && s.until > DISK_SECTORS - Linear(s.place)
  }

  predicate NoErrors(e: Errors) { !e.nxs && !e.nxc && !e.nxd && !e.nxm && !e.ovr && !e.he && !e.err }

  function FirstWord(s: Rk): nat { SECTOR_WORDS * Linear(s.place) }

  /** The words between the start address and the end of the disk that are asked for. */
  function Wanted(s: Rk): int
    requires OnDisk(s.place)
  {
    var room := SECTOR_WORDS * (DISK_SECTORS - Linear(s.place));
    if s.left < room then s.left else room
  }

  function Found(s: Rk): nat
    requires Going(s)
  {
    Existing(|s.memory|, s.address, Wanted(s))
  }

  function Sectors(words: nat): nat { (words + SECTOR_WORDS - 1) / SECTOR_WORDS }

  /** The words counted off: after a time-out the whole chunk it happened in. */
  function Counted(s: Rk): nat
    requires Going(s)
  {
    if Found(s) == Wanted(s) then Wanted(s)
    else
      var upTo := SECTOR_WORDS * (Found(s) / SECTOR_WORDS + 1);
      if upTo < s.left then upTo else s.left
  }
}
