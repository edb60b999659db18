# El Torito boot-image extractor, modelled in Dafny

This project models `eltorito.py`, a tool that pulls the embedded boot image out of a
bootable CD image. The tool follows section 8.2 of ECMA-119 (ISO 9660) and the El Torito
Bootable CD-ROM Format Specification 1.0. It makes one forward pass over the disc image:

1. It reads the Boot Record Volume Descriptor in sector 17 and checks it.
2. It reads the boot catalog sector that the descriptor names. There it checks the
   Validation Entry and the Initial/Default Entry.
3. It works out how many 512-byte sectors the boot image has. Floppy media have fixed
   sizes. A hard disk takes the extent from its own partition table. Every other media
   type, and any count of 0, falls back to the catalog's count.
4. It reads that many sectors from the entry's load RBA.

The disc image is an immutable `seq<Byte>`. Every read is `Sectors.GetSector`, a slice of
that sequence. The whole extraction is the pure function `Extractor.Extract` from image
bytes to `Result<Extraction>`. Each point where the source stops (an `exit(1)`, a
`struct.error`, a `UnicodeDecodeError`) becomes a `Failures.Error`. The kinds are distinct
except for one case. The two ASCII decodes of the boot record (eltorito.py:33 and :35) share
`NonAsciiBootRecord`, because both refuse the same sector. Since `Extract` is a function,
two runs on the same image give identical output.

Modules, one per file:
- `Bytes` (bytes.dfy): bytes and little-endian `<H`/`<L` fields.
- `Failures` (failures.dfy): the error kinds.
- `AsciiText` (text.dfy): ASCII decoding, `str.strip()` and the specifier filter.
- `Sectors` (sectors.dfy): `_get_sector`.
- `VolumeDescriptor` (boot_record.dfy): the boot record.
- `BootCatalog` (boot_catalog.dfy): the two catalog entries.
- `Extractor` (extractor.dfy): count resolution and `_extract`.
- `AsWritten` (as_written.dfy): the floppy-count defect described under Findings.

Behaviour worth noting:
- A short read is not an error. `_get_sector` prints a warning and returns the short
  buffer (`ShortImageShortOutput`).
- A count of 0 is allowed and yields an empty image.
- Slices too short for `struct.unpack` are errors of their own (`Truncated*`).
- Non-ASCII bytes in the identifier or the specifier fail the ASCII decode
  (`NonAsciiBootRecord`), and so do non-ASCII bytes in the manufacturer field
  (`NonAsciiManufacturer`). Each decode runs before the check that follows it.

## Model

| member | source | states |
|---|---|---|
| Sectors.GetSector | eltorito.py:17-24 | the read has length min(count*512, bytes left after number*2048), and byte i of it is image byte number*2048+i |
| Sectors.GetSectorCovered | eltorito.py:17-24 | when the image covers the range, the read is exactly bytes [number*2048, number*2048+count*512) and is complete |
| Sectors.GetSectorShort | eltorito.py:22-24 | when it does not, the read is the whole rest of the image, incomplete, and no failure |
| Sectors.GetSectorPrefix | eltorito.py:17-24 | a read of fewer sectors at the same place is a prefix of a read of more |
| Bytes.U16Le | eltorito.py:44 | a `<H` field is a number below 65536 |
| Bytes.U32Le | eltorito.py:31 | a `<L` field is a number below 2^32 |
| Bytes.U16RoundTrip | eltorito.py:44 | decoding the `<H` encoding of n gives n |
| Bytes.U16Inverse | eltorito.py:44 | encoding a decoded `<H` field gives back its two bytes |
| Bytes.U32RoundTrip | eltorito.py:31 | decoding the `<L` encoding of n gives n |
| Bytes.U32Inverse | eltorito.py:31 | encoding a decoded `<L` field gives back its four bytes |
| AsciiText.Decode | eltorito.py:33 | ASCII decoding keeps the length and maps each byte to the character with that code |
| AsciiText.DecodeEncode | eltorito.py:33-35 | decoding the ASCII encoding of a string gives the string |
| AsciiText.StripLeadingSpec | eltorito.py:35 | `StripLeading` (`str.lstrip()`): the result is a suffix of the input, everything dropped is Python whitespace, and it does not start with whitespace |
| AsciiText.StripTrailingSpec | eltorito.py:35 | `StripTrailing` (`str.rstrip()`): the result is a prefix of the input, everything dropped is Python whitespace, and it does not end with whitespace |
| AsciiText.KeepSpec | eltorito.py:36 | `KeepUpperAndSpace`, the filter: the result holds only `A`-`Z` and spaces, is no longer than the input, and equals an input that holds only those |
| AsciiText.KeepConcat | eltorito.py:36 | the filter of a concatenation is the concatenation of the filters |
| AsciiText.NormalizeSpecifierSpec | eltorito.py:35-39 | `NormalizeSpecifier`, the strip, filter and strip that the check compares: the result is no longer than the input, holds only `A`-`Z` and spaces, and starts and ends with a letter unless it is empty |
| AsciiText.PaddedNameNormalizes | eltorito.py:35-39 | a name of letters and spaces that starts and ends with a letter, padded with anything but letters and spaces, normalizes to the name |
| AsciiText.PaddedSpecifierNormalizes | eltorito.py:35-39 | "EL TORITO SPECIFICATION" padded with NULs (or anything but letters and spaces) passes the specifier check |
| VolumeDescriptor.Fields | eltorito.py:31 | the `<B5sB32s32sL` unpack gives fields of widths 5, 32 and 32 bytes and a catalog sector below 2^32 |
| VolumeDescriptor.FieldsOfEncoding | eltorito.py:31 | unpacking the encoding of a record, followed by anything, gives the record |
| VolumeDescriptor.EncodingOfFields | eltorito.py:31 | encoding the unpacked fields gives back the sector's first 75 bytes |
| VolumeDescriptor.DecodeBootRecord | eltorito.py:29-41 | fewer than 75 bytes is exactly the truncation error; a non-ASCII identifier or boot system id is the ASCII error; ASCII fields that are not "CD001" and the El Torito specifier are the not-bootable error; an accepted record is the unpacked fields, and its catalog sector is the little-endian word at bytes 71-74 |
| VolumeDescriptor.BootRecordAccepted | eltorito.py:31-41 | the record is accepted if and only if the sector has 75 bytes, bytes 1-5 and 7-38 are ASCII, bytes 1-5 read "CD001" and bytes 7-38 normalize to "EL TORITO SPECIFICATION" |
| VolumeDescriptor.WrongIdentifierRejected | eltorito.py:39-41 | identifier "CD002" gives the not-bootable error |
| VolumeDescriptor.DecodeEncodeBootRecord | eltorito.py:31 | every El Torito record, encoded and followed by anything, decodes to itself |
| VolumeDescriptor.EncodeDecodeBootRecord | eltorito.py:31 | an accepted sector's first 75 bytes are the encoding of what it decoded to |
| BootCatalog.ValidationFields | eltorito.py:44 | the `<BBH24sHBB` unpack gives a 24-byte manufacturer and 16-bit reserved and checksum words |
| BootCatalog.ValidationFieldsOfEncoding | eltorito.py:44 | unpacking the encoding of a validation entry, followed by anything, gives the entry |
| BootCatalog.EncodingOfValidationFields | eltorito.py:44 | encoding the unpacked fields gives back the catalog's first 32 bytes |
| BootCatalog.DecodeValidationEntry | eltorito.py:44-54 | fewer than 32 bytes is exactly the truncation error; a non-ASCII manufacturer is the manufacturer's ASCII error; an ASCII manufacturer with a header byte other than 1 or keys other than 0x55, 0xAA is the invalid-entry error; an accepted entry is the unpacked fields |
| BootCatalog.ValidationEntryAccepted | eltorito.py:44-54 | the validation entry is accepted if and only if the catalog has 32 bytes, bytes 4-27 are ASCII, byte 0 is 1, byte 30 is 0x55 and byte 31 is 0xAA |
| BootCatalog.SwappedKeysRejected | eltorito.py:52-54 | keys 0xAA, 0x55 give the invalid-validation-entry error |
| BootCatalog.ChecksumIgnored | eltorito.py:44-52 | catalogs that differ only in the checksum word are accepted or refused together, with the same error, and decode alike apart from that word |
| BootCatalog.PlatformLabel | eltorito.py:56-62 | every platform byte gets a label, never an error: 0, 1 and 2 their names in the platform table, every other byte "unknown" |
| BootCatalog.InitialFields | eltorito.py:64 | the `<BBHBBHLB` unpack gives a 16-bit load segment and count and a 32-bit load RBA |
| BootCatalog.InitialFieldsOfEncoding | eltorito.py:64 | unpacking the encoding of an initial entry at offset 32 gives the entry |
| BootCatalog.EncodingOfInitialFields | eltorito.py:64 | encoding the unpacked fields gives back catalog bytes 32-44 |
| BootCatalog.DecodeInitialEntry | eltorito.py:64-75 | fewer than 45 bytes is exactly the truncation error; 45 bytes with byte 32 other than 0x88 is the not-bootable-entry error; an accepted entry is the unpacked fields, with boot indicator 0x88, its count the word at bytes 38-39 and its load RBA the word at bytes 40-43 |
| BootCatalog.InitialEntryAccepted | eltorito.py:64-75 | the initial entry is accepted if and only if the catalog has 45 bytes and byte 32 is 0x88 |
| BootCatalog.MediaLabel | eltorito.py:76-91 | media 0-4 get their names from the media table, every other byte "unknown", never an error |
| BootCatalog.DecodeEncodeCatalog | eltorito.py:44-71 | an accepted validation entry followed by a bootable initial entry decodes to both |
| BootCatalog.EncodeDecodeCatalog | eltorito.py:44-71 | an accepted catalog's first 45 bytes are the encoding of its two decoded entries |
| Extractor.PartitionSectors | eltorito.py:92-98 | fewer than 462 bytes is exactly the truncation error; otherwise the extent is the sum of the u32 words at bytes 454-457 and 458-461 |
| Extractor.PartitionSectorsOfEncoding | eltorito.py:92-98 | a first sector whose partition entry at offset 446 holds start LBA `first` and count `size` in its `<8sLL` words gives the extent `first + size`, whatever follows |
| Extractor.ResolveCount | eltorito.py:76-100 | floppy counts times 512 are the floppy capacities; a hard disk with a non-zero extent gets that extent; media 0, unknown media and a zero extent get the catalog count; a result of 0 means the catalog count was 0 |
| Extractor.FloppySectorCounts | eltorito.py:81-89 | media 1, 2, 3 resolve to 2400, 2880 and 5760 sectors, whatever the catalog says |
| Extractor.Locate | eltorito.py:29-98 | succeeds exactly when the boot record, both catalog entries and, for a hard disk, the partition entry are accepted; otherwise the error is the first refused stage's; on success the record is what sector 17 decodes to, both entries are what the catalog sector it names decodes to, and the extent is the partition table's for hard disks and 0 otherwise |
| Extractor.Extract | eltorito.py:29-105 | succeeds exactly when every check passes, fails with the first stage's error, and on success the image is the read of the resolved count at the load RBA |
| Extractor.ValidImageExtracts | eltorito.py:29-105 | an image whose sector 17, catalog and (for a hard disk) partition sector pass every byte-level check extracts, and the output is the read at the catalog's load RBA of the count resolved from its media byte, its count word and the partition table |
| Extractor.ShortPartitionSectorFails | eltorito.py:90-95 | a hard disk whose embedded first sector is under 462 bytes ends the whole extraction with the partition truncation error |
| Extractor.BootRecordGatesCatalog | eltorito.py:29-43 | a refused boot record decides the result, and images with the same sector-17 read give the same result, so the catalog is never consulted |
| Extractor.CatalogErrorsPropagate | eltorito.py:43-75 | a refused validation entry, and then a refused initial entry, is the result of the whole extraction |
| Extractor.ExtractRequiresElTorito | eltorito.py:29-43 | every success read a sector 17 with "CD001" and the El Torito specifier, and used as catalog sector the u32 at bytes 71-74 |
| Extractor.ExtractRequiresValidCatalog | eltorito.py:43-75 | every success read a catalog with byte 0 = 1, bytes 30-31 = 0x55 0xAA and byte 32 = 0x88 |
| Extractor.ExtractedImageExact | eltorito.py:102-105 | an output the image covers is exactly the count*512 bytes from byte load_rba*2048 |
| Extractor.ResolvedCountPositive | eltorito.py:76-100 | the count is positive for every floppy, for a hard disk with a positive extent, and whenever the catalog count is positive |
| Extractor.FloppyImageExtracted | eltorito.py:81-105 | a covered floppy image is extracted whole, its full capacity in bytes |
| Extractor.HardDiskExample | eltorito.py:90-100 | a first partition at LBA 100 with 200 sectors gives 300 sectors |
| Extractor.NoEmulationScenario | eltorito.py:76-105 | no emulation with catalog count 40 and load RBA 25 gives the 20480 bytes from offset 51200 |
| Extractor.ShortImageShortOutput | eltorito.py:99-105 | an image one byte short of the final read yields an output one byte short, not an error |
| AsWritten.ResolveCountAsWritten | eltorito.py:76-100 | the count is a float exactly for media 1-3, and has the same value as the corrected count |
| AsWritten.ExtractAsWritten | eltorito.py:29-105 | the code as written fails exactly when a stage is refused, with that stage's error; raises the read's TypeError exactly for floppy media; and otherwise extracts what the corrected model extracts |
| AsWritten.FloppyReadFailsAsWritten | eltorito.py:81-105 | every floppy image that passes all checks ends in the read's TypeError as written, while the corrected model extracts 2400, 2880 or 5760 sectors |
| AsWritten.AsWrittenAgreesOffFloppy | eltorito.py:76-105 | for every other image the code as written and the corrected model agree |

## Left out

- `main` (eltorito.py:111-123) is not modelled. It holds argument parsing, the input and output existence checks and exit codes, which are command-line plumbing.
- File I/O is not modelled: reopening the file per read, `seek`/`read`, and writing the output file. Reads are slices of an immutable sequence, and the output is the `image` of the result.
- All `print` diagnostics are left out. They do not affect the result, and the decoded fields stay available in `Extraction`.
- `exit(1)` as process termination is left out. Each exit point is an error value instead.
- The manufacturer string is checked for ASCII only. It is displayed, never compared.
- Python's number types are not modelled in `Extractor`, which uses exact integers. `AsWritten` models the one place where they matter, the float floppy counts.

## Findings

| source | as written | input that shows it | evidently intended | confidence | as-written member | corrected member |
|---|---|---|---|---|---|---|
| eltorito.py:81-89 | floppy counts use true division, so `count` is the float 2400.0, 2880.0 or 5760.0. `_get_sector` then passes `512 * count`, a float, to `f.read`, and under Python 3 that raises a TypeError | any image that passes every check and whose initial entry has media byte 1, 2 or 3 | integer counts 2400, 2880 and 5760, with the floppy image extracted whole | not executed | AsWritten.FloppyReadFailsAsWritten | Extractor.FloppyImageExtracted |
