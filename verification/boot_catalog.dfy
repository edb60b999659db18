/** The boot catalog: its Validation Entry (bytes 0-31, section 2.1 of the
    El Torito specification) and its Initial/Default Entry (bytes 32-44,
    section 2.2), as eltorito.py:43-75 decodes and checks them. */
module BootCatalog {
  import opened Bytes
  import opened Failures
  import opened AsciiText

  /** `struct.calcsize("<BBH24sHBB")`. */
  const ValidationEntryLength: nat := 32
  /** Offset of the initial entry plus `struct.calcsize("<BBHBBHLB")`. */
  const InitialEntryEnd: nat := 45

  const HeaderId: Byte := 1
  const KeyByte1: Byte := 0x55
  const KeyByte2: Byte := 0xAA
  const Bootable: Byte := 0x88

  /** The fields of `<BBH24sHBB`. */
  datatype ValidationEntry = ValidationEntry(
    headerId: Byte,            // byte 0, must be 1
    platformId: Byte,          // byte 1
    reserved: nat,             // bytes 2-3
    manufacturer: seq<Byte>,   // bytes 4-27, ASCII
    checksum: nat,             // bytes 28-29, never checked
    key1: Byte,                // byte 30, must be 0x55
    key2: Byte)                // byte 31, must be 0xAA

  /** The fields of `<BBHBBHLB`, read from catalog offset 32. */
  datatype InitialEntry = InitialEntry(
    bootIndicator: Byte,       // byte 32, must be 0x88
    media: Byte,               // byte 33
    loadSegment: nat,          // bytes 34-35, informational
    systemType: Byte,          // byte 36, informational
    unused1: Byte,             // byte 37
    sectorCount: nat,          // bytes 38-39, 512-byte sectors the catalog claims
    loadRba: nat,              // bytes 40-43, first 2048-byte sector of the image
    unused2: Byte)             // byte 44

  predicate ValidationShaped(v: ValidationEntry) {
    v.reserved < 0x1_0000 && |v.manufacturer| == 24 && v.checksum < 0x1_0000
  }

  /** What eltorito.py:48 and 52 accept. */
  predicate ValidationAccepted(v: ValidationEntry) {
    IsAscii(v.manufacturer) && v.headerId == HeaderId && v.key1 == KeyByte1 && v.key2 == KeyByte2
  }

  predicate InitialShaped(e: InitialEntry) {
    e.loadSegment < 0x1_0000 && e.sectorCount < 0x1_0000 && e.loadRba < 0x1_0000_0000
  }

  function ValidationFields(catalog: seq<Byte>): (v: ValidationEntry)
    requires |catalog| >= ValidationEntryLength
    ensures ValidationShaped(v)
  {
    ValidationEntry(catalog[0], catalog[1], U16Le(catalog[2..4]), catalog[4..28],
                    U16Le(catalog[28..30]), catalog[30], catalog[31])
  }

  function InitialFields(catalog: seq<Byte>): (e: InitialEntry)
    requires |catalog| >= InitialEntryEnd
    ensures InitialShaped(e)
  {
    InitialEntry(catalog[32], catalog[33], U16Le(catalog[34..36]), catalog[36], catalog[37],
                 U16Le(catalog[38..40]), U32Le(catalog[40..44]), catalog[44])
  }

  /** eltorito.py:44-54. The unpack fails on fewer than 32 bytes, the
      manufacturer's ASCII decode on a byte of 0x80 or more, and the entry is
      refused unless its header byte is 1 and its key bytes are 0x55, 0xAA. */
  function DecodeValidationEntry(catalog: seq<Byte>): (r: Result<ValidationEntry>)
    ensures |catalog| < ValidationEntryLength <==> r == Err(TruncatedValidationEntry)
    ensures |catalog| >= ValidationEntryLength && !IsAscii(catalog[4..28])
            ==> r == Err(NonAsciiManufacturer)
    ensures |catalog| >= ValidationEntryLength && IsAscii(catalog[4..28])
              && (catalog[0] != HeaderId || catalog[30] != KeyByte1 || catalog[31] != KeyByte2)
            ==> r == Err(InvalidValidationEntry)
    ensures r.Ok? ==> r.value == ValidationFields(catalog)
    ensures r.Ok? ==> ValidationShaped(r.value) && ValidationAccepted(r.value)
  {
    if |catalog| < ValidationEntryLength then Err(TruncatedValidationEntry)
    else
      var v := ValidationFields(catalog);
      if !IsAscii(v.manufacturer) then Err(NonAsciiManufacturer)
      else if v.headerId != HeaderId || v.key1 != KeyByte1 || v.key2 != KeyByte2 then
        Err(InvalidValidationEntry)
      else Ok(v)
  }

  /** eltorito.py:64-75. The unpack fails on fewer than 45 bytes, and the
      entry is refused unless its boot indicator is 0x88. */
  function DecodeInitialEntry(catalog: seq<Byte>): (r: Result<InitialEntry>)
    ensures |catalog| < InitialEntryEnd <==> r == Err(TruncatedInitialEntry)
    ensures |catalog| >= InitialEntryEnd && catalog[32] != Bootable ==> r == Err(NotBootableEntry)
    ensures r.Ok? ==> r.value == InitialFields(catalog)
    ensures r.Ok? ==> InitialShaped(r.value) && r.value.bootIndicator == Bootable
    ensures r.Ok? ==> r.value.sectorCount == U16Le(catalog[38..40])
    ensures r.Ok? ==> r.value.loadRba == U32Le(catalog[40..44])
  {
    if |catalog| < InitialEntryEnd then Err(TruncatedInitialEntry)
    else
      var e := InitialFields(catalog);
      if e.bootIndicator != Bootable then Err(NotBootableEntry)
      else Ok(e)
  }

  /** The platform identifiers of section 2.1 of the El Torito specification. */
  const PlatformNames: map<Byte, string> := map[0 := "x86", 1 := "PowerPC", 2 := "Mac"]

  /** eltorito.py:56-62: a label for every platform byte, never an error. */
  function PlatformLabel(platform: Byte): (name: string)
    ensures platform in PlatformNames ==> name == PlatformNames[platform]
    ensures platform !in PlatformNames <==> name == "unknown"
    ensures platform in PlatformNames <==> platform <= 2
  {
    if platform in PlatformNames then PlatformNames[platform] else "unknown"
  }

  /** The boot media types of section 2.2 of the El Torito specification. */
  const MediaNames: map<Byte, string> :=
    map[0 := "no emulation", 1 := "1.2meg floppy", 2 := "1.44meg floppy",
        3 := "2.88meg floppy", 4 := "harddisk"]

  /** eltorito.py:76-91: a label for every media byte, never an error. */
  function MediaLabel(media: Byte): (name: string)
    ensures media in MediaNames ==> name == MediaNames[media]
    ensures media !in MediaNames <==> name == "unknown"
    ensures media in MediaNames <==> media <= 4
  {
    if media in MediaNames then MediaNames[media] else "unknown"
  }

  /** The 32 bytes a validation entry occupies. */
  function EncodeValidationEntry(v: ValidationEntry): (s: seq<Byte>)
    requires ValidationShaped(v)
    ensures |s| == ValidationEntryLength
  {
    [v.headerId, v.platformId] + EncodeU16Le(v.reserved) + v.manufacturer
      + EncodeU16Le(v.checksum) + [v.key1, v.key2]
  }

  /** The 13 bytes an initial entry occupies, at catalog offset 32. */
  function EncodeInitialEntry(e: InitialEntry): (s: seq<Byte>)
    requires InitialShaped(e)
    ensures |s| == InitialEntryEnd - ValidationEntryLength
  {
    [e.bootIndicator, e.media] + EncodeU16Le(e.loadSegment) + [e.systemType, e.unused1]
      + EncodeU16Le(e.sectorCount) + EncodeU32Le(e.loadRba) + [e.unused2]
  }

  lemma ValidationFieldsOfEncoding(v: ValidationEntry, rest: seq<Byte>)
    requires ValidationShaped(v)
    ensures ValidationFields(EncodeValidationEntry(v) + rest) == v
  {
    var s := EncodeValidationEntry(v) + rest;
    assert s[2..4] == EncodeU16Le(v.reserved);
    assert s[4..28] == v.manufacturer;
    assert s[28..30] == EncodeU16Le(v.checksum);
    U16RoundTrip(v.reserved);
    U16RoundTrip(v.checksum);
  }

  lemma EncodingOfValidationFields(catalog: seq<Byte>)
    requires |catalog| >= ValidationEntryLength
    ensures EncodeValidationEntry(ValidationFields(catalog)) == catalog[..ValidationEntryLength]
  {
    U16Inverse(catalog[2..4]);
    U16Inverse(catalog[28..30]);
    assert catalog[..32] == [catalog[0], catalog[1]] + catalog[2..4] + catalog[4..28]
                            + catalog[28..30] + [catalog[30], catalog[31]];
  }

  lemma InitialFieldsOfEncoding(e: InitialEntry, prefix: seq<Byte>, rest: seq<Byte>)
    requires InitialShaped(e) && |prefix| == ValidationEntryLength
    ensures InitialFields(prefix + EncodeInitialEntry(e) + rest) == e
  {
    var s := prefix + EncodeInitialEntry(e) + rest;
    assert s[34..36] == EncodeU16Le(e.loadSegment);
    assert s[38..40] == EncodeU16Le(e.sectorCount);
    assert s[40..44] == EncodeU32Le(e.loadRba);
    U16RoundTrip(e.loadSegment);
    U16RoundTrip(e.sectorCount);
    U32RoundTrip(e.loadRba);
  }

  lemma EncodingOfInitialFields(catalog: seq<Byte>)
    requires |catalog| >= InitialEntryEnd
    ensures EncodeInitialEntry(InitialFields(catalog)) == catalog[ValidationEntryLength..InitialEntryEnd]
  {
    U16Inverse(catalog[34..36]);
    U16Inverse(catalog[38..40]);
    U32Inverse(catalog[40..44]);
    assert catalog[32..45] == [catalog[32], catalog[33]] + catalog[34..36] + [catalog[36], catalog[37]]
                              + catalog[38..40] + catalog[40..44] + [catalog[44]];
  }

  /** A catalog made of an accepted validation entry and a bootable initial
      entry decodes to both of them. */
  lemma DecodeEncodeCatalog(v: ValidationEntry, e: InitialEntry, rest: seq<Byte>)
    requires ValidationShaped(v) && ValidationAccepted(v)
    requires InitialShaped(e) && e.bootIndicator == Bootable
    ensures DecodeValidationEntry(EncodeValidationEntry(v) + EncodeInitialEntry(e) + rest) == Ok(v)
    ensures DecodeInitialEntry(EncodeValidationEntry(v) + EncodeInitialEntry(e) + rest) == Ok(e)
  {
    var s := EncodeValidationEntry(v) + EncodeInitialEntry(e) + rest;
    ValidationFieldsOfEncoding(v, EncodeInitialEntry(e) + rest);
    assert s == EncodeValidationEntry(v) + (EncodeInitialEntry(e) + rest);
    InitialFieldsOfEncoding(e, EncodeValidationEntry(v), rest);
  }

  /** An accepted catalog starts with the encoding of the two entries it
      decoded to. */
  lemma EncodeDecodeCatalog(catalog: seq<Byte>)
    requires DecodeValidationEntry(catalog).Ok? && DecodeInitialEntry(catalog).Ok?
    ensures EncodeValidationEntry(DecodeValidationEntry(catalog).value)
            + EncodeInitialEntry(DecodeInitialEntry(catalog).value) == catalog[..InitialEntryEnd]
  {
    assert |catalog| >= InitialEntryEnd;
    EncodingOfValidationFields(catalog);
    EncodingOfInitialFields(catalog);
    assert catalog[..45] == catalog[..32] + catalog[32..45];
  }

  /** The validation entry is accepted exactly when the catalog is long
      enough, the manufacturer is ASCII, byte 0 is 1, byte 30 is 0x55 and
      byte 31 is 0xAA. */
  lemma ValidationEntryAccepted(catalog: seq<Byte>)
    ensures DecodeValidationEntry(catalog).Ok? <==>
      && |catalog| >= ValidationEntryLength
      && IsAscii(catalog[4..28])
      && catalog[0] == 1 && catalog[30] == 0x55 && catalog[31] == 0xAA
  {
  }

  /** Key bytes in the wrong order, 0xAA then 0x55, are refused. */
  lemma SwappedKeysRejected(catalog: seq<Byte>)
    requires |catalog| >= ValidationEntryLength && IsAscii(catalog[4..28])
    requires catalog[30] == 0xAA && catalog[31] == 0x55
    ensures DecodeValidationEntry(catalog) == Err(InvalidValidationEntry)
  {
  }

  /** The checksum word (bytes 28-29) never decides acceptance: two catalogs
      that differ only there are accepted or refused together, with the same
      error, and decode to entries that differ only in that word. */
  lemma ChecksumIgnored(catalog: seq<Byte>, other: seq<Byte>)
    requires |catalog| == |other| >= ValidationEntryLength
    requires catalog[..28] == other[..28] && catalog[30..] == other[30..]
    ensures DecodeValidationEntry(catalog).Ok? <==> DecodeValidationEntry(other).Ok?
    ensures DecodeValidationEntry(catalog).Err? ==>
              DecodeValidationEntry(catalog) == DecodeValidationEntry(other)
    ensures DecodeValidationEntry(catalog).Ok? ==>
              DecodeValidationEntry(catalog).value.(checksum := 0)
              == DecodeValidationEntry(other).value.(checksum := 0)
  {
    assert catalog[0] == catalog[..28][0] == other[..28][0] == other[0];
    assert catalog[1] == other[1];
    assert catalog[2..4] == catalog[..28][2..4] == other[..28][2..4] == other[2..4];
    assert catalog[4..28] == catalog[..28][4..28] == other[..28][4..28] == other[4..28];
    assert catalog[30] == catalog[30..][0] == other[30..][0] == other[30];
    assert catalog[31] == catalog[30..][1] == other[30..][1] == other[31];
  }

  /** The initial entry is accepted exactly when the catalog holds at least
      45 bytes and byte 32 is 0x88. */
  lemma InitialEntryAccepted(catalog: seq<Byte>)
    ensures DecodeInitialEntry(catalog).Ok? <==> |catalog| >= InitialEntryEnd && catalog[32] == 0x88
  {
  }
}
