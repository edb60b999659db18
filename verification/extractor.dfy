/** `_extract` (eltorito.py:29-105): the forward pass from the disc image to
    the embedded boot image. The output file is the `image` of the result. */
module Extractor {
  import opened Bytes
  import opened Failures
  import opened AsciiText
  import opened Sectors
  import opened VolumeDescriptor
  import opened BootCatalog

  /** The first classic PC partition entry sits at offset 446 of the
      embedded disk's first sector; `<8sLL` takes 16 bytes from there. */
  const PartitionEntryOffset: nat := 446
  const PartitionEntryEnd: nat := 462

  const NoEmulation: Byte := 0
  const HardDisk: Byte := 4

  /** eltorito.py:92-98: the extent of the embedded hard disk, in 512-byte
      sectors, is the first partition's start LBA plus its sector count. */
  function PartitionSectors(mbr: seq<Byte>): (r: Result<nat>)
    ensures |mbr| < PartitionEntryEnd <==> r == Err(TruncatedPartitionEntry)
    ensures r.Ok? ==> r.value == U32Le(mbr[454..458]) + U32Le(mbr[458..462])
  {
    if |mbr| < PartitionEntryEnd then Err(TruncatedPartitionEntry)
    else
      var part := mbr[PartitionEntryOffset..PartitionEntryEnd];
      SliceOfSlice(mbr, PartitionEntryOffset, PartitionEntryEnd, 8, 12);
      SliceOfSlice(mbr, PartitionEntryOffset, PartitionEntryEnd, 12, 16);
      Ok(U32Le(part[8..12]) + U32Le(part[12..16]))
  }

  /** A slice of a slice is the slice at the summed offsets. */
  lemma SliceOfSlice(s: seq<Byte>, lo: nat, hi: nat, i: nat, j: nat)
    requires lo <= hi <= |s| && i <= j <= hi - lo
    ensures s[lo..hi][i..j] == s[lo + i..lo + j]
  {
    var t := s[lo..hi][i..j];
    forall k | 0 <= k < j - i ensures t[k] == s[lo + i + k] {
      assert t[k] == s[lo..hi][i + k];
    }
  }

  /** A first sector whose partition entry holds the start LBA `first` and
      the sector count `size` after its eight leading bytes, followed by
      anything, gives the extent `first + size`. */
  lemma PartitionSectorsOfEncoding(boot: seq<Byte>, head: seq<Byte>, first: nat, size: nat, rest: seq<Byte>)
    requires |boot| == PartitionEntryOffset && |head| == 8
    requires first < 0x1_0000_0000 && size < 0x1_0000_0000
    ensures PartitionSectors(boot + head + EncodeU32Le(first) + EncodeU32Le(size) + rest) == Ok(first + size)
  {
    var s := boot + head + EncodeU32Le(first) + EncodeU32Le(size) + rest;
    assert s[454..458] == EncodeU32Le(first);
    assert s[458..462] == EncodeU32Le(size);
    U32RoundTrip(first);
    U32RoundTrip(size);
  }

  /** Capacity in bytes of the emulated floppy of media types 1, 2 and 3. */
  function FloppyBytes(media: Byte): nat {
    if media == 1 then 1200 * 1024
    else if media == 2 then 1440 * 1024
    else if media == 3 then 2880 * 1024
    else 0
  }

  /** eltorito.py:76-100: the number of 512-byte sectors to extract. Floppies
      have their fixed size, a hard disk the extent its partition table
      gives, no emulation and unknown media nothing; a result of 0 falls
      back to the catalog's own count. */
  function ResolveCount(media: Byte, catalogCount: nat, partitionTotal: nat): (count: nat)
    ensures 1 <= media <= 3 ==> count * VirtualSectorSize == FloppyBytes(media)
    ensures media == HardDisk && partitionTotal != 0 ==> count == partitionTotal
    ensures (media == HardDisk && partitionTotal == 0) || media == NoEmulation || media > HardDisk
            ==> count == catalogCount
    ensures count == 0 ==> catalogCount == 0
  {
    var candidate :=
      if 1 <= media <= 3 then FloppyBytes(media) / VirtualSectorSize
      else if media == HardDisk then partitionTotal
      else 0;
    if candidate == 0 then catalogCount else candidate
  }

  /** Everything decoded before the final read. `partitionTotal` is the
      partition-table extent for hard-disk media and 0 otherwise. */
  datatype Located = Located(record: BootRecord, validation: ValidationEntry,
                             entry: InitialEntry, partitionTotal: nat)

  datatype Extraction = Extraction(located: Located, sectorCount: nat, image: seq<Byte>)

  /** eltorito.py:29-98: sector 17, then the catalog sector it names, then,
      for hard-disk media only, the embedded disk's first sector. The first
      stage that fails decides the error. */
  function Locate(image: seq<Byte>): (r: Result<Located>)
    ensures r.Ok? ==> DecodeBootRecord(GetSector(image, BootRecordSector, 1)) == Ok(r.value.record)
    ensures r.Ok? ==>
      var catalog := GetSector(image, r.value.record.catalogSector, 1);
      DecodeValidationEntry(catalog) == Ok(r.value.validation)
      && DecodeInitialEntry(catalog) == Ok(r.value.entry)
    ensures r.Ok? && r.value.entry.media == HardDisk ==>
      PartitionSectors(GetSector(image, r.value.entry.loadRba, 1)) == Ok(r.value.partitionTotal)
    ensures r.Ok? && r.value.entry.media != HardDisk ==> r.value.partitionTotal == 0
    ensures var record := DecodeBootRecord(GetSector(image, BootRecordSector, 1));
      record.Err? ==> r == Err(record.error)
    ensures var record := DecodeBootRecord(GetSector(image, BootRecordSector, 1));
      record.Ok? ==>
        var catalog := GetSector(image, record.value.catalogSector, 1);
        var validation, entry := DecodeValidationEntry(catalog), DecodeInitialEntry(catalog);
        && (validation.Err? ==> r == Err(validation.error))
        && (validation.Ok? && entry.Err? ==> r == Err(entry.error))
        && (validation.Ok? && entry.Ok? ==>
              && (r.Ok? <==> entry.value.media != HardDisk
                             || PartitionSectors(GetSector(image, entry.value.loadRba, 1)).Ok?)
              && (r.Err? ==> r == Err(TruncatedPartitionEntry)))
  {
    var record := DecodeBootRecord(GetSector(image, BootRecordSector, 1));
    if record.Err? then Err(record.error)
    else
      var catalog := GetSector(image, record.value.catalogSector, 1);
      var validation := DecodeValidationEntry(catalog);
      if validation.Err? then Err(validation.error)
      else
        var entry := DecodeInitialEntry(catalog);
        if entry.Err? then Err(entry.error)
        else
          var total :=
            if entry.value.media == HardDisk then PartitionSectors(GetSector(image, entry.value.loadRba, 1))
            else Ok(0);
          if total.Err? then Err(total.error)
          else Ok(Located(record.value, validation.value, entry.value, total.value))
  }

  /** eltorito.py:29-105: the boot image is `count` 512-byte sectors read from
      the initial entry's load RBA, with `count` resolved as above. */
  function Extract(image: seq<Byte>): (r: Result<Extraction>)
    ensures r.Ok? <==> Locate(image).Ok?
    ensures r.Err? ==> r.error == Locate(image).error
    ensures r.Ok? ==>
      var l := r.value.located;
      && l == Locate(image).value
      && r.value.sectorCount == ResolveCount(l.entry.media, l.entry.sectorCount, l.partitionTotal)
      && r.value.image == GetSector(image, l.entry.loadRba, r.value.sectorCount)
  {
    var located := Locate(image);
    if located.Err? then Err(located.error)
    else
      var l := located.value;
      var count := ResolveCount(l.entry.media, l.entry.sectorCount, l.partitionTotal);
      Ok(Extraction(l, count, GetSector(image, l.entry.loadRba, count)))
  }

  /** The boot record gates everything: when it is refused, the result is
      that refusal, and no byte outside the sector-17 read can change it, so
      the catalog is never consulted. */
  lemma BootRecordGatesCatalog(image: seq<Byte>, other: seq<Byte>)
    requires DecodeBootRecord(GetSector(image, BootRecordSector, 1)).Err?
    requires GetSector(image, BootRecordSector, 1) == GetSector(other, BootRecordSector, 1)
    ensures Extract(image) == Err(DecodeBootRecord(GetSector(image, BootRecordSector, 1)).error)
    ensures Extract(other) == Extract(image)
  {
  }

  /** Once the boot record is accepted, a refused validation entry decides
      the result before the initial entry is looked at, and a refused
      initial entry decides it before any other sector is read. */
  lemma CatalogErrorsPropagate(image: seq<Byte>)
    requires DecodeBootRecord(GetSector(image, BootRecordSector, 1)).Ok?
    ensures var catalog := GetSector(image, DecodeBootRecord(GetSector(image, BootRecordSector, 1)).value.catalogSector, 1);
      && (DecodeValidationEntry(catalog).Err? ==> Extract(image) == Err(DecodeValidationEntry(catalog).error))
      && (DecodeValidationEntry(catalog).Ok? && DecodeInitialEntry(catalog).Err? ==>
            Extract(image) == Err(DecodeInitialEntry(catalog).error))
  {
  }

  /** Every successful extraction came from a sector 17 that names ISO 9660
      ("CD001" at bytes 1-5) and the El Torito boot system (bytes 7-38,
      normalized), and the catalog it read is the sector whose number is
      the little-endian word at bytes 71-74. */
  lemma ExtractRequiresElTorito(image: seq<Byte>)
    requires Extract(image).Ok?
    ensures var s := GetSector(image, BootRecordSector, 1);
      && |s| >= BootRecordLength
      && IsAscii(s[1..6]) && Decode(s[1..6]) == StandardIdentifier
      && IsAscii(s[7..39]) && NormalizeSpecifier(Decode(s[7..39])) == ElToritoSpecifier
      && Extract(image).value.located.record.catalogSector == U32Le(s[71..75])
  {
    BootRecordAccepted(GetSector(image, BootRecordSector, 1));
  }

  /** Every successful extraction read a catalog whose validation entry has
      header 1 and keys 0x55, 0xAA, and whose initial entry is marked 0x88. */
  lemma ExtractRequiresValidCatalog(image: seq<Byte>)
    requires Extract(image).Ok?
    ensures var catalog := GetSector(image, Extract(image).value.located.record.catalogSector, 1);
      && |catalog| >= InitialEntryEnd
      && catalog[0] == 1 && catalog[30] == 0x55 && catalog[31] == 0xAA
      && catalog[32] == 0x88
  {
    var catalog := GetSector(image, Extract(image).value.located.record.catalogSector, 1);
    ValidationEntryAccepted(catalog);
    InitialEntryAccepted(catalog);
  }

  /** The output is the `count * 512` bytes at byte `load_rba * 2048` of the
      image whenever the image covers them. */
  lemma ExtractedImageExact(image: seq<Byte>)
    requires Extract(image).Ok?
    ensures var x := Extract(image).value;
      var start := x.located.entry.loadRba * SectorSize;
      start + x.sectorCount * VirtualSectorSize <= |image| ==>
        && |x.image| == x.sectorCount * VirtualSectorSize
        && x.image == image[start .. start + x.sectorCount * VirtualSectorSize]
  {
    var x := Extract(image).value;
    if x.located.entry.loadRba * SectorSize + x.sectorCount * VirtualSectorSize <= |image| {
      GetSectorCovered(image, x.located.entry.loadRba, x.sectorCount);
    }
  }

  /** An image whose bytes pass every check extracts, and its boot image is
      the read at the load RBA of the count resolved from the media byte,
      the catalog count and, for a hard disk, the partition table. */
  lemma ValidImageExtracts(image: seq<Byte>)
    requires var s := GetSector(image, BootRecordSector, 1);
      && |s| >= BootRecordLength
      && IsAscii(s[1..6]) && Decode(s[1..6]) == StandardIdentifier
      && IsAscii(s[7..39]) && NormalizeSpecifier(Decode(s[7..39])) == ElToritoSpecifier
    requires var s := GetSector(image, BootRecordSector, 1);
      |s| >= BootRecordLength &&
      var catalog := GetSector(image, U32Le(s[71..75]), 1);
      && |catalog| >= InitialEntryEnd && IsAscii(catalog[4..28])
      && catalog[0] == 1 && catalog[30] == 0x55 && catalog[31] == 0xAA && catalog[32] == 0x88
      && (catalog[33] == HardDisk ==> |GetSector(image, U32Le(catalog[40..44]), 1)| >= PartitionEntryEnd)
    ensures Extract(image).Ok?
    ensures var s := GetSector(image, BootRecordSector, 1);
      |s| >= BootRecordLength &&
      var catalog := GetSector(image, U32Le(s[71..75]), 1);
      |catalog| >= InitialEntryEnd &&
      var media, start := catalog[33], U32Le(catalog[40..44]);
      var total := if media == HardDisk then PartitionSectors(GetSector(image, start, 1)).value else 0;
      var x := Extract(image).value;
      && x.sectorCount == ResolveCount(media, U16Le(catalog[38..40]), total)
      && x.image == GetSector(image, start, x.sectorCount)
  {
    var s := GetSector(image, BootRecordSector, 1);
    BootRecordAccepted(s);
    var catalog := GetSector(image, U32Le(s[71..75]), 1);
    ValidationEntryAccepted(catalog);
    InitialEntryAccepted(catalog);
  }

  /** A hard-disk entry whose embedded disk's first sector is too short for
      the partition entry ends the extraction with the truncation error. */
  lemma ShortPartitionSectorFails(image: seq<Byte>)
    requires DecodeBootRecord(GetSector(image, BootRecordSector, 1)).Ok?
    requires var catalog := GetSector(image, DecodeBootRecord(GetSector(image, BootRecordSector, 1)).value.catalogSector, 1);
      && DecodeValidationEntry(catalog).Ok? && DecodeInitialEntry(catalog).Ok?
      && DecodeInitialEntry(catalog).value.media == HardDisk
      && |GetSector(image, DecodeInitialEntry(catalog).value.loadRba, 1)| < PartitionEntryEnd
    ensures Extract(image) == Err(TruncatedPartitionEntry)
  {
  }

  /** The resolved count is positive for every floppy, for a hard disk whose
      partition table gives a positive extent, and for any media whose
      catalog count is positive. */
  lemma ResolvedCountPositive(media: Byte, catalogCount: nat, partitionTotal: nat)
    ensures 1 <= media <= 3 ==> ResolveCount(media, catalogCount, partitionTotal) > 0
    ensures media == HardDisk && partitionTotal > 0 ==> ResolveCount(media, catalogCount, partitionTotal) > 0
    ensures catalogCount > 0 ==> ResolveCount(media, catalogCount, partitionTotal) > 0
  {
  }

  /** The three floppy sizes are their capacities in 512-byte sectors. */
  lemma FloppySectorCounts(catalogCount: nat, partitionTotal: nat)
    ensures ResolveCount(1, catalogCount, partitionTotal) == 2400
    ensures ResolveCount(2, catalogCount, partitionTotal) == 2880
    ensures ResolveCount(3, catalogCount, partitionTotal) == 5760
  {
  }

  /** A floppy boot image is extracted whole: its full capacity in bytes
      whenever the image covers it. */
  lemma FloppyImageExtracted(image: seq<Byte>)
    requires Locate(image).Ok?
    requires var e := Locate(image).value.entry;
      1 <= e.media <= 3 && e.loadRba * SectorSize + FloppyBytes(e.media) <= |image|
    ensures Extract(image).Ok?
    ensures var e := Locate(image).value.entry;
      Extract(image).value.image == image[e.loadRba * SectorSize .. e.loadRba * SectorSize + FloppyBytes(e.media)]
  {
    var x := Extract(image).value;
    GetSectorCovered(image, x.located.entry.loadRba, x.sectorCount);
  }

  /** A hard disk whose first partition starts at LBA 100 and is 200
      sectors long gives 300 sectors, whatever the catalog says. */
  lemma HardDiskExample(image: seq<Byte>)
    requires Locate(image).Ok? && Locate(image).value.entry.media == HardDisk
    requires var mbr := GetSector(image, Locate(image).value.entry.loadRba, 1);
      |mbr| >= PartitionEntryEnd
      && mbr[454..458] == EncodeU32Le(100) && mbr[458..462] == EncodeU32Le(200)
    ensures Extract(image).Ok? && Extract(image).value.sectorCount == 300
  {
    U32RoundTrip(100);
    U32RoundTrip(200);
  }

  /** No emulation, catalog count 40, load RBA 25: the output is the 20480
      bytes from offset 51200 when the image holds them. */
  lemma NoEmulationScenario(image: seq<Byte>)
    requires Locate(image).Ok?
    requires var e := Locate(image).value.entry;
      e.media == NoEmulation && e.sectorCount == 40 && e.loadRba == 25
    requires |image| >= 51200 + 20480
    ensures Extract(image).Ok?
    ensures |Extract(image).value.image| == 20480
    ensures Extract(image).value.image == image[51200 .. 51200 + 20480]
  {
    GetSectorCovered(image, 25, 40);
  }

  /** An image one byte too short for the final read still yields a result:
      the boot image comes back one byte short, and nothing fails. */
  lemma ShortImageShortOutput(image: seq<Byte>)
    requires Extract(image).Ok?
    requires var x := Extract(image).value;
      x.sectorCount > 0
      && |image| == x.located.entry.loadRba * SectorSize + x.sectorCount * VirtualSectorSize - 1
    ensures var x := Extract(image).value;
      && |x.image| == x.sectorCount * VirtualSectorSize - 1
      && !ReadIsComplete(image, x.located.entry.loadRba, x.sectorCount)
  {
    var x := Extract(image).value;
    GetSectorShort(image, x.located.entry.loadRba, x.sectorCount);
  }
}
