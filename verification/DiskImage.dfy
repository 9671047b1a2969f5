/** The simulated disk as the file system sees it: 1024 sectors of 128 bytes, read and
    written one whole sector at a time.  Timing and the interrupt protocol behind these two
    calls are in DiskTiming and SynchDevice. */
module DiskImage {
  import opened LittleEndian

  const SECTOR_SIZE := 128
  const NUM_SECTORS := 1024

  type Sector = s: seq<Byte> | |s| == SECTOR_SIZE witness seq(SECTOR_SIZE, _ => 0)
  const ZERO_SECTOR: Sector := seq(SECTOR_SIZE, _ => 0)

  type Image = d: seq<Sector> | |d| == NUM_SECTORS witness seq<Sector>(NUM_SECTORS, _ => ZERO_SECTOR)

  /** `c` with the bytes at `position` replaced by `data`. */
  function Splice(c: seq<Byte>, position: nat, data: seq<Byte>): (r: seq<Byte>)
    requires position + |data| <= |c|
    ensures |r| == |c|
  {
    c[..position] + data + c[position + |data|..]
  }

  class SynchDisk {
    var image: Image

    constructor (initial: Image)
      ensures image == initial
    {
      image := initial;
    }

    method ReadSector(sector: int, into: array<Byte>, at: nat)
      requires 0 <= sector < NUM_SECTORS
      requires at + SECTOR_SIZE <= into.Length
      modifies into
      ensures into[..] == Splice(old(into[..]), at, image[sector])
    {
      forall p | at <= p < at + SECTOR_SIZE {
        into[p] := image[sector][p - at];
      }
    }

    method WriteSector(sector: int, from: array<Byte>, at: nat)
      requires 0 <= sector < NUM_SECTORS
      requires at + SECTOR_SIZE <= from.Length
      modifies this
      ensures image == old(image)[sector := from[at..at + SECTOR_SIZE]]
    {
      image := image[sector := from[at..at + SECTOR_SIZE]];
    }
  }
}
