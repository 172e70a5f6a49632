/** The mapped PE image that every later stage of the sidecar reads, and its range checks. */
module PeView {
  import opened Bytes

  datatype Range = Range(begin: U32, end: U32)

  /** The image laid out at its RVAs, which parts of it are mapped, and which of those hold code. */
  datatype Pe = Pe(image: seq<Byte>, mapped: seq<Range>, executable: seq<Range>)

  const MAX_IMAGE_SIZE: nat := 0x8000_0000

  predicate Within(rva: nat, size: nat, range: Range) { range.begin <= rva && rva + size <= range.end }

  predicate Contained(rva: nat, size: nat, ranges: seq<Range>) {
    exists i :: 0 <= i < |ranges| && Within(rva, size, ranges[i])
  }

  /** require_range: inside SizeOfImage and, unless empty, inside one of the ranges. */
  predicate InRange(pe: Pe, rva: nat, size: nat, ranges: seq<Range>) {
    && rva + size <= |pe.image|
    && (size > 0 ==> Contained(rva, size, ranges))
  }
}
