/** The Boot Record Volume Descriptor of sector 17 (section 8.2 of ECMA-119 and
    section 2.0 of the El Torito Bootable CD-ROM Format Specification 1.0),
    as eltorito.py:29-43 decodes and checks its first 75 bytes. */
module VolumeDescriptor {
  import opened Bytes
  import opened Failures
  import opened AsciiText

  /** The sector that holds the boot record. */
  const BootRecordSector: nat := 17

  /** `struct.calcsize("<B5sB32s32sL")`. */
  const BootRecordLength: nat := 75

  const StandardIdentifier: string := "CD001"

  /** The five fields of `<B5sB32s32sL`, kept as raw bytes. */
  datatype BootRecord = BootRecord(
    descriptorType: Byte,       // byte 0
    identifier: seq<Byte>,      // bytes 1-5, "CD001"
    version: Byte,              // byte 6
    bootSystemId: seq<Byte>,    // bytes 7-38, "EL TORITO SPECIFICATION" and padding
    bootId: seq<Byte>,          // bytes 39-70, unused by the extractor
    catalogSector: nat)         // bytes 71-74, little-endian sector of the boot catalog

  /** The shape every decoded record has. */
  predicate Shaped(b: BootRecord) {
    |b.identifier| == 5 && |b.bootSystemId| == 32 && |b.bootId| == 32
    && b.catalogSector < 0x1_0000_0000
  }

  /** What the check at eltorito.py:39 accepts, on the decoded text. */
  predicate IsElTorito(b: BootRecord) {
    && IsAscii(b.identifier) && IsAscii(b.bootSystemId)
    && Decode(b.identifier) == StandardIdentifier
    && NormalizeSpecifier(Decode(b.bootSystemId)) == ElToritoSpecifier
  }

  /** The unpack of eltorito.py:31, field by field. */
  function Fields(sector: seq<Byte>): (b: BootRecord)
    requires |sector| >= BootRecordLength
    ensures Shaped(b)
  {
    BootRecord(sector[0], sector[1..6], sector[6], sector[7..39],
               sector[39..71], U32Le(sector[71..75]))
  }

  /** eltorito.py:31-41. The unpack fails on fewer than 75 bytes, each ASCII
      decode fails on a byte of 0x80 or more, and the record is refused
      unless it names ISO 9660 and the El Torito boot system. */
  function DecodeBootRecord(sector: seq<Byte>): (r: Result<BootRecord>)
    ensures |sector| < BootRecordLength <==> r == Err(TruncatedBootRecord)
    ensures |sector| >= BootRecordLength && !(IsAscii(sector[1..6]) && IsAscii(sector[7..39]))
            ==> r == Err(NonAsciiBootRecord)
    ensures |sector| >= BootRecordLength && IsAscii(sector[1..6]) && IsAscii(sector[7..39])
              && !IsElTorito(Fields(sector))
            ==> r == Err(NotBootable)
    ensures r.Ok? ==> r.value == Fields(sector)
    ensures r.Ok? ==> Shaped(r.value) && IsElTorito(r.value)
    ensures r.Ok? ==> r.value.catalogSector == U32Le(sector[71..75])
  {
    if |sector| < BootRecordLength then Err(TruncatedBootRecord)
    else
      var record := Fields(sector);
      if !IsAscii(record.identifier) || !IsAscii(record.bootSystemId) then Err(NonAsciiBootRecord)
      else if !IsElTorito(record) then Err(NotBootable)
      else Ok(record)
  }

  /** The 75 bytes a record occupies at the start of sector 17. */
  function EncodeBootRecord(b: BootRecord): (s: seq<Byte>)
    requires Shaped(b)
    ensures |s| == BootRecordLength
  {
    [b.descriptorType] + b.identifier + [b.version] + b.bootSystemId + b.bootId
      + EncodeU32Le(b.catalogSector)
  }

  lemma FieldsOfEncoding(b: BootRecord, rest: seq<Byte>)
    requires Shaped(b)
    ensures Fields(EncodeBootRecord(b) + rest) == b
  {
    var s := EncodeBootRecord(b) + rest;
    assert s[1..6] == b.identifier;
    assert s[7..39] == b.bootSystemId;
    assert s[39..71] == b.bootId;
    assert s[71..75] == EncodeU32Le(b.catalogSector);
    U32RoundTrip(b.catalogSector);
  }

  /** Every El Torito boot record, followed by anything, decodes to itself. */
  lemma DecodeEncodeBootRecord(b: BootRecord, rest: seq<Byte>)
    requires Shaped(b) && IsElTorito(b)
    ensures DecodeBootRecord(EncodeBootRecord(b) + rest) == Ok(b)
  {
    FieldsOfEncoding(b, rest);
  }

  /** An accepted sector starts with the encoding of what it decoded to. */
  lemma EncodeDecodeBootRecord(sector: seq<Byte>)
    requires DecodeBootRecord(sector).Ok?
    ensures EncodeBootRecord(DecodeBootRecord(sector).value) == sector[..BootRecordLength]
  {
    assert |sector| >= BootRecordLength;
    EncodingOfFields(sector);
  }

  lemma EncodingOfFields(sector: seq<Byte>)
    requires |sector| >= BootRecordLength
    ensures EncodeBootRecord(Fields(sector)) == sector[..BootRecordLength]
  {
    U32Inverse(sector[71..75]);
    assert sector[..75] == [sector[0]] + sector[1..6] + [sector[6]] + sector[7..39]
                           + sector[39..71] + sector[71..75];
  }

  /** The record is accepted exactly when the sector is long enough, its two
      text fields are ASCII, and they read "CD001" and, once normalized,
      "EL TORITO SPECIFICATION". */
  lemma BootRecordAccepted(sector: seq<Byte>)
    ensures DecodeBootRecord(sector).Ok? <==>
      && |sector| >= BootRecordLength
      && IsAscii(sector[1..6]) && IsAscii(sector[7..39])
      && Decode(sector[1..6]) == StandardIdentifier
      && NormalizeSpecifier(Decode(sector[7..39])) == ElToritoSpecifier
  {
  }

  /** An identifier one character off, "CD002", is refused as not bootable. */
  lemma WrongIdentifierRejected(sector: seq<Byte>)
    requires |sector| >= BootRecordLength && IsAscii(sector[7..39])
    requires sector[1..6] == [0x43, 0x44, 0x30, 0x30, 0x32]
    ensures DecodeBootRecord(sector) == Err(NotBootable)
  {
    var id := Decode(sector[1..6]);
    assert id[4] == '2';
  }
}
