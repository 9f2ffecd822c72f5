/** The rotating platter of an RL01/RL02 drive (rl0102.cpp): 40 headers and 40
    data blocks pass the head in turn. */
module RlPlatter {
  import opened Words
  import opened StorageImage
  import opened ImageOfWords

  const SECTORS := 40
  const SECTOR_WORDS := 128
  const SECTOR_BYTES := 256

  /** The disk address word: cylinder, head and sector in separate bits. */
  function HeaderWord(cylinder: nat, head: nat, sector: nat): Word
    requires cylinder < 512 && head < 2 && sector < 64
  {
    cylinder * 0x80 + head * 0x40 + sector
  }

  lemma HeaderFields(cylinder: nat, head: nat, sector: nat)
    requires cylinder < 512 && head < 2 && sector < 64
    ensures var w := HeaderWord(cylinder, head, sector);
            w / 0x80 == cylinder && (w / 0x40) % 2 == head && w % 0x40 == sector
  {
  }

  /** header_on_track */
  predicate OnTrack(cylinder: nat, head: nat, da: Word) {
    da / 0x80 == cylinder && (da / 0x40) % 2 == head && da % 0x40 < SECTORS
  }

  /** A disk address is found on the track exactly when one of its headers says so. */
  lemma OnTrackMeaning(cylinder: nat, head: nat, da: Word)
    requires cylinder < 512 && head < 2
    ensures OnTrack(cylinder, head, da) <==>
              exists s :: 0 <= s < SECTORS && HeaderWord(cylinder, head, s) == da
  {
    if OnTrack(cylinder, head, da) {
      assert HeaderWord(cylinder, head, da % 0x40) == da;
    }
    forall s | 0 <= s < SECTORS && HeaderWord(cylinder, head, s) == da ensures OnTrack(cylinder, head, da) {
      HeaderFields(cylinder, head, s);
    }
  }

  /** The segments 0 to 79 in turn: (segment + 1) % 80. */
  function Advance(segment: nat): nat { if segment >= 79 then 0 else segment + 1 }

  /** The header or data segment read next, letting one of the other kind pass. */
  function HeaderSegment(segment: nat): nat { if segment % 2 == 1 then Advance(segment) else segment }
  function DataSegment(segment: nat): nat { if segment % 2 == 0 then Advance(segment) else segment }

  /** The sector whose header is read next. */
  function NextHeader(segment: nat): nat { HeaderSegment(segment) / 2 }

  /** Headers that pass before, and including, the one of the given sector. */
  function HeadersUntil(segment: nat, sector: nat): int {
    var t := NextHeader(segment);
    if t <= sector then sector - t + 1 else sector + SECTORS - t + 1
  }

  /** Reading a header leaves the data block of the same sector under the head. */
  lemma HeaderRead(segment: nat)
    requires segment < 80
    ensures var t := NextHeader(segment);
            && t < SECTORS
            && HeaderSegment(segment) == 2 * t
            && Advance(HeaderSegment(segment)) == 2 * t + 1
            && NextHeader(2 * t + 1) == if t == SECTORS - 1 then 0 else t + 1
  {
  }

  /** Reading or writing a data block leaves the next header under the head. */
  lemma DataPassed(sector: nat)
    requires sector < SECTORS
    ensures DataSegment(2 * sector + 1) / 2 == sector
    ensures var after := Advance(DataSegment(2 * sector + 1));
            after < 80 && NextHeader(after) == if sector == SECTORS - 1 then 0 else sector + 1
  {
  }

  /** The wanted header is at most one turn away, and every header read that is
      not the wanted one brings it one closer. */
  lemma HeaderPasses(segment: nat, sector: nat)
    requires segment < 80 && sector < SECTORS
    ensures 1 <= HeadersUntil(segment, sector) <= SECTORS
    ensures NextHeader(segment) == sector <==> HeadersUntil(segment, sector) == 1
    ensures NextHeader(segment) != sector ==>
              HeadersUntil(Advance(HeaderSegment(segment)), sector) == HeadersUntil(segment, sector) - 1
  {
    HeaderRead(segment);
  }

  /** First word of a sector in the image. */
  function SectorOffset(cylinder: nat, head: nat, sector: nat): nat {
    ((2 * cylinder + head) * SECTORS + sector) * SECTOR_WORDS
  }

  /** That is where get_image_offset finds the sector, for either type of drive. */
  lemma SectorPlace(cylinders: nat, cylinder: nat, head: nat, sector: nat)
    ensures Geometry(cylinders, 2, 40, 256).ImageOffset(cylinder, head, sector)
            == 2 * SectorOffset(cylinder, head, sector)
  {
  }
}
