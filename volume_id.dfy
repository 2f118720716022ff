/**
 * Locating the FAT32 volume ID (boot) sector in the dump.
 *
 * At a candidate offset the boot-sector fields are decoded at their places
 * in the BIOS parameter block of Microsoft's FAT specification ("Boot Sector
 * and BPB"); the sector is accepted when four of them have the values a
 * FAT32 volume shows. The search tries every 512-byte-aligned offset from
 * the start of the dump and stops at the first accepted one.
 */
module VolumeId {
  import opened FieldDecoder

  /** ASSUMED_BYTES_PER_SECTOR: the step of the search and the only sector size accepted. */
  const SECTOR_SIZE: nat := 512

  /** The two bytes 0x55 0xAA at the end of the boot sector, read little-endian. */
  const BOOT_SIGNATURE: int := 43605

  /** The boot-sector fields that the carver decides on. */
  datatype VolumeIdFields = VolumeIdFields(
    bytesPerSector: int,        // offset 0x0B, 2 bytes
    sectorsPerCluster: int,     // offset 0x0D, 1 byte
    fatCount: int,              // offset 0x10, 1 byte
    rootDirFirstCluster: int,   // offset 0x2C, 4 bytes
    signature: int)             // offset 0x1FE, 2 bytes

  /** Every field read stays inside the 512 bytes at `off`; the signature
      read ends exactly at the end of them. */
  predicate SectorReadable(dump: seq<byte>, off: nat)
  {
    off + SECTOR_SIZE <= |dump|
  }

  function ReadVolumeIdFields(dump: seq<byte>, off: nat): VolumeIdFields
    requires SectorReadable(dump, off)
  {
    VolumeIdFields(
      IntAt(dump, off + 0x0B, 2),
      IntAt(dump, off + 0x0D, 1),
      IntAt(dump, off + 0x10, 1),
      IntAt(dump, off + 0x2C, 4),
      IntAt(dump, off + 0x1FE, 2))
  }

  /** The acceptance heuristic: signature, sector size, root cluster and FAT count. */
  predicate MightContainVolumeInfo(v: VolumeIdFields)
  {
    && v.signature == BOOT_SIGNATURE
    && v.bytesPerSector == 512
    && v.rootDirFirstCluster == 2
    && v.fatCount == 2
  }

  /** `get_fat_volumeID_information`: the sector index of `off` when the
      sector there passes the heuristic, -1 otherwise. */
  function GetVolumeIdInformation(dump: seq<byte>, off: nat): (r: int)
    requires SectorReadable(dump, off)
    ensures r == -1 || (r >= 0 && r * SECTOR_SIZE <= off < (r + 1) * SECTOR_SIZE)
    ensures r != -1 <==> MightContainVolumeInfo(ReadVolumeIdFields(dump, off))
  {
    if MightContainVolumeInfo(ReadVolumeIdFields(dump, off)) then off / SECTOR_SIZE else -1
  }

  /** Sector `s` of the dump is accepted as the volume ID sector. */
  predicate VolumeIdAt(dump: seq<byte>, s: nat)
    requires SectorReadable(dump, s * SECTOR_SIZE)
  {
    MightContainVolumeInfo(ReadVolumeIdFields(dump, s * SECTOR_SIZE))
  }

  lemma LittleEndian2(s: seq<byte>)
    requires |s| == 2
    ensures LittleEndian(s) == s[0] as int + 256 * s[1] as int
  {
    assert s[1..][1..] == [];
    assert LittleEndian(s[1..]) == s[1];
  }

  lemma LittleEndian4(s: seq<byte>)
    requires |s| == 4
    ensures LittleEndian(s) == s[0] as int + 256 * s[1] as int + 0x1_0000 * s[2] as int + 0x100_0000 * s[3] as int
  {
    var t := s[2..];
    assert s[1..][1..] == t && t[1..][1..] == [];
    LittleEndian2(t);
    assert LittleEndian(s[1..]) == s[1] + 256 * LittleEndian(t);
  }

  /** The heuristic in terms of the raw bytes of the sector: 0x55 0xAA at
      0x1FE, 512 (0x00 0x02) at 0x0B, two FATs at 0x10 and a root directory
      starting at cluster 2 (0x02 0x00 0x00 0x00) at 0x2C. */
  lemma AcceptedBytes(dump: seq<byte>, off: nat)
    requires SectorReadable(dump, off)
    ensures MightContainVolumeInfo(ReadVolumeIdFields(dump, off)) <==>
              && dump[off + 0x1FE] == 0x55 && dump[off + 0x1FF] == 0xAA
              && dump[off + 0x0B] == 0x00 && dump[off + 0x0C] == 0x02
              && dump[off + 0x10] == 2
              && dump[off + 0x2C..off + 0x30] == [2, 0, 0, 0]
  {
    var root := dump[off + 0x2C..off + 0x30];
    LittleEndian2(dump[off + 0x0B..off + 0x0D]);
    LittleEndian2(dump[off + 0x1FE..off + 0x200]);
    LittleEndian4(root);
    assert dump[off + 0x10..off + 0x11][1..] == [];
    assert IntAt(dump, off + 0x2C, 4) == 2 <==> LittleEndian(root) == 2;
    assert LittleEndian(root) == 2 <==> root == [2, 0, 0, 0] by {
      assert root == [root[0], root[1], root[2], root[3]];
    }
  }

  /** Sector `s` is the one the search stops at: it is accepted and no
      earlier sector is. */
  predicate FirstVolumeId(dump: seq<byte>, s: nat)
  {
    && SectorReadable(dump, s * SECTOR_SIZE)
    && VolumeIdAt(dump, s)
    && forall t :: 0 <= t < s ==> !VolumeIdAt(dump, t)
  }

  /** The search has at most one answer. */
  lemma FirstVolumeIdUnique(dump: seq<byte>, s1: nat, s2: nat)
    requires FirstVolumeId(dump, s1) && FirstVolumeId(dump, s2)
    ensures s1 == s2
  {
  }

  /** A whole sector is one of the |dump| / 512 sectors the search tries
      before the end, so rejecting all of those rejects it too. */
  lemma WholeSectorsRejected(dump: seq<byte>, s: nat)
    requires forall t :: 0 <= t < |dump| / SECTOR_SIZE ==> !VolumeIdAt(dump, t)
    requires SectorReadable(dump, s * SECTOR_SIZE)
    ensures !VolumeIdAt(dump, s)
  {
    assert s < |dump| / SECTOR_SIZE;
  }

  /** The search loop of the carver's main routine. The C program's -1 stays the
      "not found" answer; a sector that would be read past the end of the
      dump (its length is not a multiple of 512 and no earlier sector was
      accepted) stops the search with ReadPastEnd. */
  method FindVolumeIdSector(dump: seq<byte>) returns (r: Result<int>)
    ensures r.Ok? ==> r.value >= -1
    ensures r.Ok? && r.value >= 0 ==>
              SectorReadable(dump, r.value * SECTOR_SIZE) && VolumeIdAt(dump, r.value)
    ensures r.Ok? && r.value >= 0 ==>
              forall t :: 0 <= t < r.value ==> !VolumeIdAt(dump, t)
    ensures r.Ok? && r.value >= 0 ==> FirstVolumeId(dump, r.value)
    ensures r.Ok? && r.value == -1 <==>
              |dump| % SECTOR_SIZE == 0 &&
              forall t :: 0 <= t < |dump| / SECTOR_SIZE ==> !VolumeIdAt(dump, t)
    ensures r.Err? ==>
              && |dump| % SECTOR_SIZE != 0
              && r.failure == ReadPastEnd(|dump| / SECTOR_SIZE * SECTOR_SIZE)
              && forall t :: 0 <= t < |dump| / SECTOR_SIZE ==> !VolumeIdAt(dump, t)
  {
    var initAddr: nat := 0;
    var sectorIndex := -1;
    while initAddr < |dump| && sectorIndex == -1
      invariant initAddr % SECTOR_SIZE == 0 && initAddr <= |dump|
      invariant sectorIndex == -1 ==>
                  forall t :: 0 <= t < initAddr / SECTOR_SIZE ==> !VolumeIdAt(dump, t)
      invariant sectorIndex != -1 ==>
                  && sectorIndex >= 0 && (sectorIndex + 1) * SECTOR_SIZE == initAddr
                  && VolumeIdAt(dump, sectorIndex)
                  && forall t :: 0 <= t < sectorIndex ==> !VolumeIdAt(dump, t)
      decreases |dump| - initAddr
    {
      if !SectorReadable(dump, initAddr) {
        return Err(ReadPastEnd(initAddr));
      }
      sectorIndex := GetVolumeIdInformation(dump, initAddr);
      initAddr := initAddr + SECTOR_SIZE;
    }
    r := Ok(sectorIndex);
  }
}
