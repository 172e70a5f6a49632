/** Where build_elf puts everything (src/pe_sidecar.cpp:780-790, 849-886, 925-945). */
module ElfLayout {
  import opened Bytes
  import opened Wrappers

  const EHDR_SIZE: nat := 64
  const PHDR_SIZE: nat := 56
  const PHDR_COUNT: nat := 10
  const NOTE_SIZE: nat := 36
  const NOTE_OFFSET: nat := 624

  /** r is the least multiple of the alignment that is not below value. */
  predicate IsUp(value: nat, alignment: nat, r: nat) {
    && value <= r < value + alignment
    && (alignment == 4 ==> r % 4 == 0) && (alignment == 8 ==> r % 8 == 0) && (alignment == 4096 ==> r % 4096 == 0)
  }

  /** (value + alignment - 1) & ~(alignment - 1), for a power of two. */
  function Masked(value: nat, alignment: nat): nat
    requires alignment == 4 || alignment == 8 || alignment == 4096
  {
    if alignment == 4 then (value + 3) / 4 * 4 else if alignment == 8 then (value + 7) / 8 * 8
       else (value + 4095) / 4096 * 4096
  }

  lemma {:induction false} MaskedIs(value: nat, alignment: nat)
    requires alignment == 4 || alignment == 8 || alignment == 4096
    ensures IsUp(value, alignment, Masked(value, alignment))
  {
    if alignment == 4 {
      assert (value + 3) / 4 * 4 + (value + 3) % 4 == value + 3;
    } else if alignment == 8 {
      assert (value + 7) / 8 * 8 + (value + 7) % 8 == value + 7;
    } else {
      assert (value + 4095) / 4096 * 4096 + (value + 4095) % 4096 == value + 4095;
    }
  }

  /** align_up of an offset past some bytes: the sum wraps silently, the alignment throws where it would wrap. */
  method AlignUp(offset: U64, size: nat, alignment: nat) returns (r: Option<U64>)
    requires alignment == 4 || alignment == 8 || alignment == 4096
    ensures offset + size <= 0xFFFF_FFFF_FFFF_FFFF ==>
              (r.Some? <==> offset + size + alignment - 1 <= 0xFFFF_FFFF_FFFF_FFFF)
                && (r.Some? ==> IsUp(offset + size, alignment, r.value))
  {
    var value: int := Wrap64(offset + size);
    if value > 0xFFFF_FFFF_FFFF_FFFF - (alignment - 1) {
      return None;
    }
    MaskedIs(value, alignment);
    var up: int := Masked(value, alignment);
    r := Some(up);
  }

  /** How much of each variable-sized part there is. */
  datatype Counts = Counts(image: nat, symbols: nat, dynstr: nat, ranges: nat)

  /** Sizes as they occur: parse_pe bounds the image, and vectors fit in memory. */
  predicate Bounded(c: Counts) {
    && 0 < c.image <= 0x8000_0000
    && c.symbols < 0x8000_0000
    && c.dynstr < 0x1000_0000_0000_0000 && c.ranges < 0x100_0000_0000_0000
  }

  function HashWords(symbols: nat): nat {
    var chains := symbols + 1;
    2 + (if chains < 4 then 1 else chains / 4) + chains
  }

  /** Up to the start of .eh_frame; tail is the offset of the page after the image. */
  datatype Front = Front(tail: nat, dynsym: nat, dynstr: nat, hash: nat, rodata: nat, ehFrameHdr: nat, ehFrame: nat)

  datatype Layout = Layout(front: Front, metadataEnd: nat, dynamic: nat, shstr: nat, sectionHeaders: nat, fileSize: nat)

  /** The parts up to .eh_frame follow each other, with no more space between them than their alignment asks for. */
  predicate FrontInOrder(c: Counts, f: Front) {
    && IsUp(4096 + c.image, 4096, f.tail) && f.dynsym == f.tail + 4096
    && f.dynstr == f.dynsym + 24 * (c.symbols + 1)
    && IsUp(f.dynstr + c.dynstr, 4, f.hash)
    && IsUp(f.hash + 4 * HashWords(c.symbols), 8, f.rodata)
    && IsUp(f.rodata + 24, 4, f.ehFrameHdr)
    && IsUp(f.ehFrameHdr + 12 + 8 * c.ranges, 8, f.ehFrame)
  }

  /** And so do the rest. */
  predicate InOrder(c: Counts, l: Layout, ehFrame: nat, shstr: nat) {
    && FrontInOrder(c, l.front)
    && l.front.ehFrame + ehFrame == l.metadataEnd && IsUp(l.metadataEnd, 4096, l.dynamic)
    && l.dynamic + 96 == l.shstr && IsUp(l.shstr + shstr, 8, l.sectionHeaders)
    && l.sectionHeaders + 768 == l.fileSize
  }

  /** .text, the zero page after it, and .dynsym. */
  method PlaceText(image: nat) returns (r: Option<(nat, nat)>)
    ensures image <= 0xFFFF_FFFF ==> r.Some? && IsUp(4096 + image, 4096, r.value.0) && r.value.1 == r.value.0 + 4096
  {
    var tail: nat :- AlignUp(4096, image, 4096);
    var metadataStart := Wrap64(tail + 4096);
    var dynsym: nat :- AlignUp(metadataStart, 0, 8);
    if image <= 0xFFFF_FFFF {
      PageIsAligned(tail, dynsym);
    }
    r := Some((tail, dynsym));
  }

  lemma {:induction false} PageIsAligned(tail: nat, r: nat)
    requires tail % 4096 == 0 && IsUp(tail + 4096, 8, r)
    ensures r == tail + 4096
  {
    assert tail == 8 * (512 * (tail / 4096));
  }

  /** Size of .hash: counted in 32 bits. */
  method SizeHash(symbols: nat) returns (size: U64)
    ensures symbols < 0x8000_0000 ==> size == 4 * HashWords(symbols)
  {
    var chainCount: int := Wrap32(symbols + 1);
    var bucketCount: int := if chainCount / 4 < 1 then 1 else chainCount / 4;
    var words: int := Wrap32(2 + bucketCount + chainCount);
    size := words * 4;
  }

  /** Offsets up to .eh_frame, in wrapping 64-bit arithmetic with a checked align_up. */
  method PlaceFront(c: Counts) returns (r: Option<Front>)
    ensures Bounded(c) ==> r.Some? && FrontInOrder(c, r.value) && r.value.ehFrame < 0x2000_0000_0000_0000
  {
    var text :- PlaceText(c.image);
    var dynsym: int := text.1;
    var dynstr := Wrap64(dynsym + Wrap64(24 * (c.symbols + 1)));
    var hashSize := SizeHash(c.symbols);
    var hash :- AlignUp(dynstr, c.dynstr, 4);
    var rodata :- AlignUp(hash, hashSize, 8);
    var ehFrameHdr :- AlignUp(rodata, 24, 4);
    var ehFrame :- AlignUp(ehFrameHdr, Wrap64(12 + 8 * c.ranges), 8);
    r := Some(Front(text.0, dynsym, dynstr, hash, rodata, ehFrameHdr, ehFrame));
  }

  /** The rest, once .eh_frame has been built. */
  method PlaceBack(c: Counts, f: Front, ehFrame: nat, shstr: nat) returns (r: Option<Layout>)
    requires f.ehFrame < 0x2000_0000_0000_0000
    ensures FrontInOrder(c, f) && ehFrame < 0x2000_0000_0000_0000 && shstr < 0x1_0000 ==>
              r.Some? && InOrder(c, r.value, ehFrame, shstr) && r.value.front == f
  {
    var dynamic: nat :- AlignUp(f.ehFrame, ehFrame, 4096);
    var strings: nat := Wrap64(dynamic + 96);
    var headers: nat :- AlignUp(strings, shstr, 8);
    r := Some(Layout(f, Wrap64(f.ehFrame + ehFrame), dynamic, strings, headers, Wrap64(headers + 768)));
  }

  // ----- segments

  const PT_LOAD: nat := 1
  const PT_DYNAMIC: nat := 2
  const PT_NOTE: nat := 4
  const PT_PHDR: nat := 6
  const PT_GNU_EH_FRAME: nat := 0x6474_E550
  const PT_GNU_STACK: nat := 0x6474_E551

  /** A program header; the physical address always equals the virtual one. */
  datatype Phdr = Phdr(kind: nat, flags: nat, offset: nat, vaddr: nat, filesz: nat, memsz: nat, align: nat)

  function Whole(kind: nat, flags: nat, offset: nat, vaddr: nat, size: nat, align: nat): Phdr {
    Phdr(kind, flags, offset, vaddr, size, size, align)
  }

  function Segments(c: Counts, l: Layout): (s: seq<Phdr>)
    requires l.metadataEnd >= l.front.dynsym && l.front.tail >= 4096
    ensures |s| == PHDR_COUNT
  {
    var f, headerVa := l.front, l.front.tail;
    [Whole(PT_PHDR, 4, EHDR_SIZE, headerVa + EHDR_SIZE, PHDR_COUNT * PHDR_SIZE, 8),
     Whole(PT_LOAD, 5, 4096, 0, c.image, 4096),
     Whole(PT_LOAD, 6, f.tail, headerVa - 4096, 4096, 4096),
     Whole(PT_LOAD, 4, 0, headerVa, 4096, 4096),
     Whole(PT_LOAD, 4, f.dynsym, f.dynsym, l.metadataEnd - f.dynsym, 4096),
     Whole(PT_LOAD, 6, l.dynamic, l.dynamic, 96, 4096),
     Whole(PT_DYNAMIC, 6, l.dynamic, l.dynamic, 96, 8),
     Whole(PT_NOTE, 4, NOTE_OFFSET, headerVa + NOTE_OFFSET, NOTE_SIZE, 4),
     Whole(PT_GNU_EH_FRAME, 4, f.ehFrameHdr, f.ehFrameHdr, 12 + 8 * c.ranges, 4),
     Phdr(PT_GNU_STACK, 6, 0, 0, 0, 0, 16)]
  }

  /** What the system's loader demands of a PT_LOAD. */
  predicate Mappable(p: Phdr, fileSize: nat) {
    p.offset % 4096 == p.vaddr % 4096 && p.filesz == p.memsz && p.offset + p.filesz <= fileSize
  }

  /** Page-granular extents: the last page p touches lies before the first page q touches. */
  predicate PagesBelow(p: Phdr, q: Phdr) {
    p.vaddr <= q.vaddr && (p.memsz > 0 ==> (p.vaddr + p.memsz - 1) / 4096 < q.vaddr / 4096)
  }

  /** PT_LOADs are program headers 1 to 5. */
  predicate IsLoad(i: nat) { 1 <= i <= 5 }

  /** Every PT_LOAD is mappable, and they ascend on disjoint pages. */
  lemma {:induction false} LoadsAscend(c: Counts, l: Layout, ehFrame: nat, shstr: nat)
    requires InOrder(c, l, ehFrame, shstr) && c.image > 0
    ensures forall i: nat :: i < PHDR_COUNT ==> (Segments(c, l)[i].kind == PT_LOAD <==> IsLoad(i))
    ensures forall i: nat :: IsLoad(i) ==> Mappable(Segments(c, l)[i], l.fileSize)
    ensures forall i: nat, j: nat :: IsLoad(i) && IsLoad(j) && i < j ==>
            PagesBelow(Segments(c, l)[i], Segments(c, l)[j])
  {
  }

  lemma {:induction false} FloorMonotone(a: nat, b: nat)
    requires a <= b
    ensures a / 4096 <= b / 4096
  {
  }
}
