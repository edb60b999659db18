/** The sector-count resolution of eltorito.py:76-105 exactly as Python 3
    runs it. For media 1, 2 and 3 the source computes the count with true
    division (`1200 * 1024 / V_SECTOR_SIZE`), which yields a float, and the
    final `f.read(V_SECTOR_SIZE * count)` then raises a TypeError, since a
    binary file's `read` accepts only an integer size. `Extractor.Extract`
    is the corrected behaviour, with integer counts. */
module AsWritten {
  import opened Bytes
  import opened Failures
  import opened Sectors
  import opened Extractor

  /** The two kinds of number `count` can hold in the source. */
  datatype PyNumber = PyInt(n: nat) | PyFloat(x: real)

  /** Python's `count == 0`, for either kind. */
  predicate IsZero(count: PyNumber) {
    match count
    case PyInt(n) => n == 0
    case PyFloat(x) => x == 0.0
  }

  /** eltorito.py:76-100 as written: floppy counts are floats. */
  function ResolveCountAsWritten(media: Byte, catalogCount: nat, partitionTotal: nat): (count: PyNumber)
    ensures 1 <= media <= 3 <==> count.PyFloat?
    ensures count.PyInt? ==> count.n == ResolveCount(media, catalogCount, partitionTotal)
    ensures count.PyFloat? ==> count.x == ResolveCount(media, catalogCount, partitionTotal) as real
  {
    var count :=
      if media == 0 then PyInt(0)
      else if media == 1 then PyFloat(1200.0 * 1024.0 / 512.0)
      else if media == 2 then PyFloat(1440.0 * 1024.0 / 512.0)
      else if media == 3 then PyFloat(2880.0 * 1024.0 / 512.0)
      else if media == 4 then PyInt(partitionTotal)
      else PyInt(0);
    if IsZero(count) then PyInt(catalogCount) else count
  }

  /** What one run of the source ends in: the boot image, one of the
      failures the corrected model also has, or the TypeError of `f.read`. */
  datatype Outcome = Extracted(x: Extraction) | Failed(error: Error) | ReadSizeTypeError

  /** eltorito.py:29-105 as written: `_get_sector(start, count)` with a float
      `count` raises before reading anything. */
  function ExtractAsWritten(image: seq<Byte>): (o: Outcome)
    ensures Locate(image).Err? <==> o.Failed?
    ensures o.Failed? ==> o.error == Locate(image).error
    ensures o == ReadSizeTypeError <==> Locate(image).Ok? && 1 <= Locate(image).value.entry.media <= 3
    ensures o.Extracted? ==>
      var l := o.x.located;
      && l == Locate(image).value
      && o.x.sectorCount == ResolveCount(l.entry.media, l.entry.sectorCount, l.partitionTotal)
      && o.x.image == GetSector(image, l.entry.loadRba, o.x.sectorCount)
  {
    var located := Locate(image);
    if located.Err? then Failed(located.error)
    else
      var l := located.value;
      var count := ResolveCountAsWritten(l.entry.media, l.entry.sectorCount, l.partitionTotal);
      match count
      case PyFloat(_) => ReadSizeTypeError
      case PyInt(n) => Extracted(Extraction(l, n, GetSector(image, l.entry.loadRba, n)))
  }

  /** Every floppy image that passes all the checks makes the source as
      written fail, while the corrected model extracts it with its full
      2400, 2880 or 5760 sectors. */
  lemma FloppyReadFailsAsWritten(image: seq<Byte>)
    requires Locate(image).Ok? && 1 <= Locate(image).value.entry.media <= 3
    ensures ExtractAsWritten(image) == ReadSizeTypeError
    ensures Extract(image).Ok?
    ensures Extract(image).value.sectorCount * VirtualSectorSize
            == FloppyBytes(Locate(image).value.entry.media)
  {
  }

  /** For every other image the source as written and the corrected model
      agree. */
  lemma AsWrittenAgreesOffFloppy(image: seq<Byte>)
    requires !(Locate(image).Ok? && 1 <= Locate(image).value.entry.media <= 3)
    ensures Extract(image).Ok? ==> ExtractAsWritten(image) == Extracted(Extract(image).value)
    ensures Extract(image).Err? ==> ExtractAsWritten(image) == Failed(Extract(image).error)
  {
  }
}
