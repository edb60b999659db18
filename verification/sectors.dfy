/** `_get_sector`: the one way the extractor reads the disc image. The image
    is an immutable byte sequence; a read seeks to a 2048-byte physical
    sector and takes a number of 512-byte virtual sectors from there. */
module Sectors {
  import opened Bytes

  const SectorSize: nat := 2048
  const VirtualSectorSize: nat := 512

  function Min(a: int, b: int): int {
    if a <= b then a else b
  }

  /** Bytes of the image at and after the start of physical sector `number`. */
  function Available(image: seq<Byte>, number: nat): (n: nat)
    ensures number * SectorSize <= |image| ==> n == |image| - number * SectorSize
    ensures number * SectorSize >= |image| ==> n == 0
  {
    if number * SectorSize <= |image| then |image| - number * SectorSize else 0
  }

  /** `_get_sector(number, count)`: `count * 512` bytes from byte
      `number * 2048` on, or what is left of the image there. A short read
      is not an error (the source only prints a warning); seeking past the
      end yields nothing. */
  function GetSector(image: seq<Byte>, number: nat, count: nat): (r: seq<Byte>)
    ensures |r| == Min(count * VirtualSectorSize, Available(image, number))
    ensures forall i :: 0 <= i < |r| ==> r[i] == image[number * SectorSize + i]
  {
    var lo := Min(number * SectorSize, |image|);
    var hi := Min(lo + count * VirtualSectorSize, |image|);
    image[lo..hi]
  }

  /** The condition the source warns about when it fails. */
  predicate ReadIsComplete(image: seq<Byte>, number: nat, count: nat) {
    |GetSector(image, number, count)| == count * VirtualSectorSize
  }

  /** When the image covers the range, the read is exactly that range. */
  lemma GetSectorCovered(image: seq<Byte>, number: nat, count: nat)
    requires number * SectorSize + count * VirtualSectorSize <= |image|
    ensures ReadIsComplete(image, number, count)
    ensures GetSector(image, number, count)
         == image[number * SectorSize .. number * SectorSize + count * VirtualSectorSize]
  {
  }

  /** When it does not, the read is the whole rest of the image, shorter than
      asked for, and still no failure. */
  lemma GetSectorShort(image: seq<Byte>, number: nat, count: nat)
    requires number * SectorSize <= |image| < number * SectorSize + count * VirtualSectorSize
    ensures !ReadIsComplete(image, number, count)
    ensures GetSector(image, number, count) == image[number * SectorSize..]
  {
  }

  /** A shorter read is a prefix of a longer one from the same sector. */
  lemma GetSectorPrefix(image: seq<Byte>, number: nat, small: nat, large: nat)
    requires small <= large
    ensures GetSector(image, number, small) <= GetSector(image, number, large)
  {
  }
}
