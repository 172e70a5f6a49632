/** The sidecar file as written, and what the system's loader maps from it (src/pe_sidecar.cpp:886-1022). */
module ElfImage {
  import opened Bytes
  import opened Words
  import opened Wrappers
  import opened CfiRanges
  import opened EhFrame
  import opened EhFrameHdr
  import opened ElfFile
  import opened ElfLayout
  import UnwindTables

  // ----- program headers as bytes

  function Quads(vs: seq<nat>): (r: seq<seq<Byte>>)
    ensures |r| == |vs|
  {
    seq(|vs|, i requires 0 <= i < |vs| => Encode(vs[i], 8))
  }

  function QuadsOf(p: Phdr): seq<seq<Byte>> { Quads([p.offset, p.vaddr, p.vaddr, p.filesz, p.memsz, p.align]) }

  /** Elf64_Phdr. */
  function PhdrBytes(p: Phdr): seq<Byte> { Encode(p.kind, 4) + Encode(p.flags, 4) + Concat(QuadsOf(p)) }

  function PhdrRecords(ps: seq<Phdr>): (r: seq<seq<Byte>>)
    ensures |r| == |ps|
  {
    seq(|ps|, i requires 0 <= i < |ps| => PhdrBytes(ps[i]))
  }

  function Quad(s: seq<Byte>, k: nat): nat
    requires 8 * k + 16 <= |s|
  {
    Value(s[8 * k + 8..8 * k + 16])
  }

  function ReadPhdr(s: seq<Byte>): Phdr
    requires |s| == 56
  {
    Phdr(Value(s[..4]), Value(s[4..8]), Quad(s, 0), Quad(s, 1), Quad(s, 3), Quad(s, 4), Quad(s, 5))
  }

  predicate InRange(p: Phdr) {
    && p.kind < 0x1_0000_0000 && p.flags < 0x1_0000_0000
    && p.offset < 0x1_0000_0000_0000_0000 && p.vaddr < 0x1_0000_0000_0000_0000
    && p.filesz < 0x1_0000_0000_0000_0000 && p.memsz < 0x1_0000_0000_0000_0000 && p.align < 0x1_0000_0000_0000_0000
  }

  lemma {:induction false} PhdrSize(p: Phdr)
    ensures AllOf(QuadsOf(p), 8) && |Concat(QuadsOf(p))| == 48 && |PhdrBytes(p)| == 56
  {
    ConcatSize(QuadsOf(p), 8);
  }

  lemma {:induction false} QuadSlice(p: Phdr, k: nat)
    requires k < 6
    ensures |PhdrBytes(p)| == 56 && PhdrBytes(p)[8 * k + 8..8 * k + 16] == QuadsOf(p)[k]
  {
    PhdrSize(p);
    RecordAt(QuadsOf(p), 8, k);
    AfterHead(Encode(p.kind, 4) + Encode(p.flags, 4), Concat(QuadsOf(p)), 8 * k);
  }

  lemma {:induction false} AfterHead(head: seq<Byte>, rest: seq<Byte>, from: nat)
    requires |head| == 8 && from + 8 <= |rest|
    ensures (head + rest)[from + 8..from + 16] == rest[from..from + 8]
  {
  }

  lemma {:induction false} QuadReads(p: Phdr, k: nat, v: nat)
    requires k < 6 && v == [p.offset, p.vaddr, p.vaddr, p.filesz, p.memsz, p.align][k] && v < 0x1_0000_0000_0000_0000
    ensures |PhdrBytes(p)| == 56 && Quad(PhdrBytes(p), k) == v
  {
    QuadSlice(p, k);
    Reduced(v, 8);
  }

  lemma {:induction false} HeadReads(p: Phdr)
    requires p.kind < 0x1_0000_0000 && p.flags < 0x1_0000_0000
    ensures |PhdrBytes(p)| == 56 && Value(PhdrBytes(p)[..4]) == p.kind && Value(PhdrBytes(p)[4..8]) == p.flags
  {
    PhdrSize(p);
    assert PhdrBytes(p)[..4] == Encode(p.kind, 4);
    assert PhdrBytes(p)[4..8] == Encode(p.flags, 4);
    Reduced(p.kind, 4);
    Reduced(p.flags, 4);
  }

  /** A program header reads back. */
  lemma {:induction false} PhdrRoundTrip(p: Phdr)
    requires InRange(p)
    ensures |PhdrBytes(p)| == 56 && ReadPhdr(PhdrBytes(p)) == p
  {
    HeadReads(p);
    QuadReads(p, 0, p.offset);
    QuadReads(p, 1, p.vaddr);
    QuadReads(p, 3, p.filesz);
    QuadReads(p, 4, p.memsz);
    QuadReads(p, 5, p.align);
  }

  // ----- the parts

  /** Records and strings whose contents the layout does not depend on. */
  datatype Rest = Rest(ehdr: seq<Byte>, note: seq<Byte>, dynstr: seq<Byte>, nullSymbol: seq<Byte>,
                       symbols: seq<seq<Byte>>,
                       hash: seq<Byte>, sourceSize: seq<Byte>, fingerprint: seq<Byte>, version: seq<Byte>,
                       dynamic: seq<Byte>, shstr: seq<Byte>, sections: seq<Byte>)

  /** Their sizes. */
  predicate Shaped(r: Rest, c: Counts) {
    && |r.ehdr| == 64 && |r.note| == 36 && |r.dynstr| == c.dynstr && |r.nullSymbol| == 24
    && AllOf(r.symbols, 24) && |r.symbols| == c.symbols && |r.hash| == 4 * HashWords(c.symbols)
    && |r.sourceSize| == 8 && |r.fingerprint| == 8 && |r.version| == 8
    && |r.dynamic| == 96 && |r.shstr| < 0x1_0000 && |r.sections| == 768
  }

  datatype Parts = Parts(image: seq<Byte>, hdr: seq<Byte>, eh: seq<Byte>, rest: Rest)

  predicate Laid(c: Counts, l: Layout, p: Parts) {
    && InOrder(c, l, |p.eh|, |p.rest.shstr|) && Shaped(p.rest, c)
    && |p.image| == c.image > 0 && |p.hdr| == 12 + 8 * c.ranges
  }

  function HeadPieces(c: Counts, l: Layout, p: Parts): seq<Piece>
    requires Laid(c, l, p)
  {
    [Piece(0, p.rest.ehdr),
     Piece(64, Concat(PhdrRecords(Segments(c, l)))),
     Piece(624, p.rest.note)]
  }

  function BodyPieces(l: Layout, p: Parts): seq<Piece>
  {
    [Piece(4096, p.image),
     Piece(l.front.dynstr, p.rest.dynstr),
     Piece(l.front.dynsym, p.rest.nullSymbol)]
  }

  function SymbolPieces(l: Layout, p: Parts): seq<Piece>
  {
    [Piece(l.front.dynsym + 24, Concat(p.rest.symbols)),
     Piece(l.front.hash, p.rest.hash)]
  }

  function ConstantPieces(l: Layout, p: Parts): seq<Piece>
  {
    [Piece(l.front.rodata, p.rest.sourceSize),
     Piece(l.front.rodata + 8, p.rest.fingerprint),
     Piece(l.front.rodata + 16, p.rest.version)]
  }

  function TablePieces(l: Layout, p: Parts): seq<Piece>
  {
    [Piece(l.front.ehFrameHdr, p.hdr),
     Piece(l.front.ehFrame, p.eh)]
  }

  function LastPieces(l: Layout, p: Parts): seq<Piece>
  {
    [Piece(l.dynamic, p.rest.dynamic),
     Piece(l.shstr, p.rest.shstr),
     Piece(l.sectionHeaders, p.rest.sections)]
  }

  /** Everything written, in the order written. */
  function Pieces(c: Counts, l: Layout, p: Parts): (s: seq<Piece>)
    requires Laid(c, l, p)
    ensures |s| == 16
  {
    HeadPieces(c, l, p) + BodyPieces(l, p) + SymbolPieces(l, p) + ConstantPieces(l, p) + TablePieces(l, p)
      + LastPieces(l, p)
  }

  // ----- no part overlaps another

  /** Where the parts start, in file order, and the end of the file. */
  function Boundaries(l: Layout): (b: seq<nat>)
    ensures |b| == 17
  {
    var f := l.front;
    [0, 64, 624, 4096, f.dynsym, f.dynsym + 24, f.dynstr, f.hash, f.rodata, f.rodata + 8, f.rodata + 16, f.ehFrameHdr,
      f.ehFrame,
     l.dynamic, l.shstr, l.sectionHeaders, l.fileSize]
  }

  /** Position in file order of the i-th part written: .dynstr is written before .dynsym but stands after it. */
  function Slot(i: nat): nat { if i == 4 then 6 else if i == 5 then 4 else if i == 6 then 5 else i }

  lemma {:induction false} BoundaryStep(c: Counts, l: Layout, p: Parts, k: nat)
    requires Laid(c, l, p) && k < 16
    ensures Boundaries(l)[k] <= Boundaries(l)[k + 1]
  {
  }

  lemma {:induction false} BoundariesAscend(c: Counts, l: Layout, p: Parts, j: nat, k: nat)
    requires Laid(c, l, p) && j <= k <= 16
    ensures Boundaries(l)[j] <= Boundaries(l)[k]
    decreases k
  {
    if j < k {
      BoundariesAscend(c, l, p, j, k - 1);
      BoundaryStep(c, l, p, k - 1);
    }
  }

  lemma {:induction false} RecordSizes(c: Counts, l: Layout, p: Parts)
    requires Laid(c, l, p)
    ensures |Concat(PhdrRecords(Segments(c, l)))| == 560 && |Concat(p.rest.symbols)| == 24 * c.symbols
    ensures AllOf(PhdrRecords(Segments(c, l)), 56)
  {
    var ps := Segments(c, l);
    forall i | 0 <= i < |ps| ensures |PhdrRecords(ps)[i]| == 56 {
      PhdrSize(ps[i]);
    }
    ConcatSize(PhdrRecords(ps), 56);
    ConcatSize(p.rest.symbols, 24);
  }

  function FirstPieces(c: Counts, l: Layout, p: Parts): (s: seq<Piece>)
    requires Laid(c, l, p)
    ensures |s| == 8
  {
    HeadPieces(c, l, p) + BodyPieces(l, p) + SymbolPieces(l, p)
  }

  function FinalPieces(l: Layout, p: Parts): (s: seq<Piece>)
    ensures |s| == 8
  {
    ConstantPieces(l, p) + TablePieces(l, p) + LastPieces(l, p)
  }

  lemma {:induction false} FirstInSlot(c: Counts, l: Layout, p: Parts, i: nat)
    requires Laid(c, l, p) && i < 8
    ensures FirstPieces(c, l, p)[i].at == Boundaries(l)[Slot(i)]
            && End(FirstPieces(c, l, p)[i]) <= Boundaries(l)[Slot(i) + 1]
  {
    RecordSizes(c, l, p);
  }

  lemma {:induction false} FinalInSlot(c: Counts, l: Layout, p: Parts, i: nat)
    requires Laid(c, l, p) && i < 8
    ensures FinalPieces(l, p)[i].at == Boundaries(l)[i + 8] && End(FinalPieces(l, p)[i]) <= Boundaries(l)[i + 9]
  {
  }

  lemma {:induction false} PiecesSplit(c: Counts, l: Layout, p: Parts)
    requires Laid(c, l, p)
    ensures Pieces(c, l, p) == FirstPieces(c, l, p) + FinalPieces(l, p)
  {
    Assoc(FirstPieces(c, l, p), ConstantPieces(l, p), TablePieces(l, p));
    Assoc(FirstPieces(c, l, p), ConstantPieces(l, p) + TablePieces(l, p), LastPieces(l, p));
  }

  lemma {:induction false} PieceInSlot(c: Counts, l: Layout, p: Parts, i: nat)
    requires Laid(c, l, p) && i < 16
    ensures Pieces(c, l, p)[i].at == Boundaries(l)[Slot(i)] && End(Pieces(c, l, p)[i]) <= Boundaries(l)[Slot(i) + 1]
  {
    PiecesSplit(c, l, p);
    if i < 8 {
      FirstInSlot(c, l, p, i);
    } else {
      FinalInSlot(c, l, p, i - 8);
    }
  }

  /** All parts lie inside the file and no two share a byte. */
  lemma {:induction false} PartsApart(c: Counts, l: Layout, p: Parts)
    requires Laid(c, l, p)
    ensures AllInside(l.fileSize, Pieces(c, l, p)) && PiecesApart(Pieces(c, l, p))
  {
    var ps := Pieces(c, l, p);
    forall i | 0 <= i < |ps| ensures End(ps[i]) <= l.fileSize {
      PieceInSlot(c, l, p, i);
      BoundariesAscend(c, l, p, Slot(i) + 1, 16);
    }
    forall i, j | 0 <= i < j < |ps| ensures PieceApart(ps[i], ps[j]) {
      PieceInSlot(c, l, p, i);
      PieceInSlot(c, l, p, j);
      if Slot(i) < Slot(j) {
        BoundariesAscend(c, l, p, Slot(i) + 1, Slot(j));
      } else {
        BoundariesAscend(c, l, p, Slot(j) + 1, Slot(i));
      }
    }
  }

  lemma {:induction false} OneByOne(w: seq<Piece>, a: Piece, b: Piece, c: Piece)
    ensures w + [a] + [b] + [c] == w + [a, b, c]
  {
  }

  lemma {:induction false} Both(w: seq<Piece>, a: Piece, b: Piece)
    ensures w + [a] + [b] == w + [a, b]
  {
  }

  // ----- writing them; every part fits, so no copy reports a layout error

  method WriteHead(out: Output, c: Counts, l: Layout, p: Parts)
    requires out.Valid() && Laid(c, l, p) && AllInside(out.data.Length, HeadPieces(c, l, p))
    modifies out`written, out.data
    ensures out.Valid() && out.written == old(out.written) + HeadPieces(c, l, p)
  {
    var ps := HeadPieces(c, l, p);
    RecordSizes(c, l, p);
    OneByOne(out.written, ps[0], ps[1], ps[2]);
    assert End(ps[0]) <= out.data.Length;
    var ok := out.CopyBytes(0, p.rest.ehdr);
    assert End(ps[1]) <= out.data.Length;
    ok := out.CopyRecords(64, 56, PhdrRecords(Segments(c, l)));
    assert End(ps[2]) <= out.data.Length;
    ok := out.CopyBytes(624, p.rest.note);
  }

  method WriteBody(out: Output, l: Layout, p: Parts)
    requires out.Valid() && AllInside(out.data.Length, BodyPieces(l, p))
    modifies out`written, out.data
    ensures out.Valid() && out.written == old(out.written) + BodyPieces(l, p)
  {
    var ps := BodyPieces(l, p);
    OneByOne(out.written, ps[0], ps[1], ps[2]);
    assert End(ps[0]) <= out.data.Length;
    var ok := out.CopyBytes(4096, p.image);
    assert End(ps[1]) <= out.data.Length;
    ok := out.CopyBytes(l.front.dynstr, p.rest.dynstr);
    assert End(ps[2]) <= out.data.Length;
    ok := out.CopyBytes(l.front.dynsym, p.rest.nullSymbol);
  }

  method WriteSymbols(out: Output, l: Layout, p: Parts)
    requires out.Valid() && AllOf(p.rest.symbols, 24) && AllInside(out.data.Length, SymbolPieces(l, p))
    modifies out`written, out.data
    ensures out.Valid() && out.written == old(out.written) + SymbolPieces(l, p)
  {
    var ps := SymbolPieces(l, p);
    ConcatSize(p.rest.symbols, 24);
    Both(out.written, ps[0], ps[1]);
    assert End(ps[0]) <= out.data.Length;
    var ok := out.CopyRecords(l.front.dynsym + 24, 24, p.rest.symbols);
    assert End(ps[1]) <= out.data.Length;
    ok := out.CopyBytes(l.front.hash, p.rest.hash);
  }

  method WriteConstants(out: Output, l: Layout, p: Parts)
    requires out.Valid() && AllInside(out.data.Length, ConstantPieces(l, p))
    modifies out`written, out.data
    ensures out.Valid() && out.written == old(out.written) + ConstantPieces(l, p)
  {
    var ps := ConstantPieces(l, p);
    OneByOne(out.written, ps[0], ps[1], ps[2]);
    assert End(ps[0]) <= out.data.Length;
    var ok := out.CopyBytes(l.front.rodata, p.rest.sourceSize);
    assert End(ps[1]) <= out.data.Length;
    ok := out.CopyBytes(l.front.rodata + 8, p.rest.fingerprint);
    assert End(ps[2]) <= out.data.Length;
    ok := out.CopyBytes(l.front.rodata + 16, p.rest.version);
  }

  method WriteTables(out: Output, l: Layout, p: Parts)
    requires out.Valid() && AllInside(out.data.Length, TablePieces(l, p))
    modifies out`written, out.data
    ensures out.Valid() && out.written == old(out.written) + TablePieces(l, p)
  {
    var ps := TablePieces(l, p);
    Both(out.written, ps[0], ps[1]);
    assert End(ps[0]) <= out.data.Length;
    var ok := out.CopyBytes(l.front.ehFrameHdr, p.hdr);
    assert End(ps[1]) <= out.data.Length;
    ok := out.CopyBytes(l.front.ehFrame, p.eh);
  }

  method WriteLast(out: Output, l: Layout, p: Parts)
    requires out.Valid() && AllInside(out.data.Length, LastPieces(l, p))
    modifies out`written, out.data
    ensures out.Valid() && out.written == old(out.written) + LastPieces(l, p)
  {
    var ps := LastPieces(l, p);
    OneByOne(out.written, ps[0], ps[1], ps[2]);
    assert End(ps[0]) <= out.data.Length;
    var ok := out.CopyBytes(l.dynamic, p.rest.dynamic);
    assert End(ps[1]) <= out.data.Length;
    ok := out.CopyBytes(l.shstr, p.rest.shstr);
    assert End(ps[2]) <= out.data.Length;
    ok := out.CopyBytes(l.sectionHeaders, p.rest.sections);
  }

  /** The bytes of the finished file. */
  function FileOf(c: Counts, l: Layout, p: Parts): (f: seq<Byte>)
    requires Laid(c, l, p)
    ensures |f| == l.fileSize
  {
    PartsApart(c, l, p);
    WriteAll(Zeros(l.fileSize), Pieces(c, l, p))
  }

  lemma {:induction false} InsideParts(size: nat, a: seq<Piece>, b: seq<Piece>)
    requires AllInside(size, a + b)
    ensures AllInside(size, a) && AllInside(size, b)
  {
    assert forall i :: 0 <= i < |a| ==> (a + b)[i] == a[i];
    assert forall i :: 0 <= i < |b| ==> (a + b)[|a| + i] == b[i];
  }

  method WriteParts(out: Output, c: Counts, l: Layout, p: Parts)
    requires out.Valid() && out.written == [] && out.data.Length == l.fileSize && Laid(c, l, p)
    modifies out`written, out.data
    ensures out.data[..] == FileOf(c, l, p)
  {
    PartsApart(c, l, p);
    InsideParts(l.fileSize, HeadPieces(c, l, p) + BodyPieces(l, p) + SymbolPieces(l, p) + ConstantPieces(l, p)
                + TablePieces(l, p), LastPieces(l, p));
    InsideParts(l.fileSize, HeadPieces(c, l, p) + BodyPieces(l, p) + SymbolPieces(l, p) + ConstantPieces(l, p),
                TablePieces(l, p));
    InsideParts(l.fileSize, HeadPieces(c, l, p) + BodyPieces(l, p) + SymbolPieces(l, p), ConstantPieces(l, p));
    InsideParts(l.fileSize, HeadPieces(c, l, p) + BodyPieces(l, p), SymbolPieces(l, p));
    InsideParts(l.fileSize, HeadPieces(c, l, p), BodyPieces(l, p));
    WriteHead(out, c, l, p);
    assert out.written == HeadPieces(c, l, p);
    WriteBody(out, l, p);
    WriteSymbols(out, l, p);
    WriteConstants(out, l, p);
    WriteTables(out, l, p);
    WriteLast(out, l, p);
  }

  /** Everything but the unwind tables, given where things stand. */
  type Renderer = Layout -> Rest

  /** The unwind tables can be made at the addresses the front of the layout gives them. */
  predicate Emittable(f: Front, ranges: seq<CfiRange>) {
    && f.ehFrameHdr <= f.ehFrame < 0x2000_0000_0000_0000
    && EhFrameBytes(f.ehFrame, 0, ranges).Some? && UnwindTables.HeaderFits(f.ehFrameHdr, f.ehFrame, 0, ranges)
    && |EhFrameBytes(f.ehFrame, 0, ranges).value| < 0x2000_0000_0000_0000
  }

  /**
   * build_elf from the layout on; no section of 2^61 bytes can be allocated. After a failure only l's front has
   * meaning.
   */
  method BuildElf(c: Counts, image: seq<Byte>, ranges: seq<CfiRange>, shstr: nat, render: Renderer)
    returns (ok: bool, file: seq<Byte>, l: Layout, p: Parts)
    requires Bounded(c) && |image| == c.image && |ranges| == c.ranges && shstr < 0x1_0000
    requires forall at: Layout {:trigger render(at)} :: Shaped(render(at), c) && |render(at).shstr| == shstr
    ensures FrontInOrder(c, l.front) && (ok <==> Emittable(l.front, ranges))
    ensures ok ==> Laid(c, l, p) && p.image == image && p.rest == render(l) && file == FileOf(c, l, p)
    ensures ok ==> |p.eh| == |EhFrameBytes(l.front.ehFrame, 0, ranges).value|
    ensures ok && |p.eh| <= 0x1_0000_0000 ==> EhFrameBytes(l.front.ehFrame, 0, ranges) == Some(p.eh)
    ensures ok && |p.eh| <= 0x1_0000_0000 ==> TableLeads(p.hdr, l.front.ehFrameHdr, l.front.ehFrame, 0, ranges,
                                                         FdeStarts(ranges))
  {
    file := [];
    p := Parts([], [], [], Rest([], [], [], [], [], [], [], [], [], [], [], []));
    var front := PlaceFront(c);
    l := Layout(front.value, 0, 0, 0, 0, 0);
    var hdr, eh;
    ok, hdr, eh := UnwindTables.EmitTables(ranges, front.value.ehFrameHdr, front.value.ehFrame, 0);
    if !ok {
      return;
    }
    if |eh| >= 0x2000_0000_0000_0000 {
      ok := false;
      return;
    }
    var layout := PlaceBack(c, front.value, |eh|, shstr);
    l := layout.value;
    p := Parts(image, hdr, eh, render(l));
    var out := new Output(l.fileSize);
    WriteParts(out, c, l, p);
    file := out.data[..];
  }
}
