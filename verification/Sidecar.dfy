/**
 * From a PE file to the sidecar: the stages of parse_pe and build_elf in their order (src/pe_sidecar.cpp:182-537,
 * 779-1035).
 */
module Sidecar {
  import opened Bytes
  import opened Wrappers
  import opened PeView
  import opened Sections
  import opened ChainResolve
  import opened CfiRanges
  import opened ElfImage
  import opened ElfLoad
  import opened DynamicSymbols
  import opened SidecarSymbols
  import ElfLayout
  import EhFrame
  import EhFrameHdr
  import SymbolHash
  import UnwindTables

  /**
   * What the PE file says: the section table, the optional header's sizes, the exception directory, and its exports.
   */
  datatype Input = Input(data: seq<Byte>, table: seq<Section>, layout: Sections.Layout, directory: U32,
                         directorySize: U32, exports: seq<Export>, dll: SymbolHash.Name)

  /** The view of an accepted file that every later check reads. */
  predicate ViewOf(pe: Pe, i: Input)
    requires Accepted(i.table, i.layout, |i.data|)
  {
    && |pe.image| == i.layout.imageSize && HoldsFile(pe.image, i.data, i.table, i.layout.headersSize)
    && pe.mapped == MappedRanges(i.table, i.layout, |i.data|)
    && pe.executable == ExecutableRanges(i.table, i.layout, |i.data|)
  }

  /** The sections and the exception directory are acceptable. */
  ghost predicate Parses(pe: Pe, i: Input) {
    && Accepted(i.table, i.layout, |i.data|) && ViewOf(pe, i)
    && UnwindTables.AcceptableUnwind(pe, i.directory, i.directorySize)
  }

  /** What the call-frame ranges say of the image. */
  ghost predicate Described(pe: Pe, functions: seq<RuntimeFunction>, cfi: seq<CfiRange>, paths: seq<seq<U32>>,
                            ranges: seq<CfiRange>)
  {
    && ProperFunctions(functions, pe.executable) && ExactCover(ranges, cfi, pe.executable)
    && Describes(cfi, functions, RecordsOf(pe), paths)
  }

  /** parse_pe, as far as sections, image and unwind data go. */
  method ParsePe(i: Input)
    returns (ok: bool, pe: Pe, functions: seq<RuntimeFunction>, ranges: seq<CfiRange>, ghost cfi: seq<CfiRange>,
             ghost paths: seq<seq<U32>>)
    ensures Accepted(i.table, i.layout, |i.data|) ==> ViewOf(pe, i)
    ensures ok <==> Parses(pe, i)
    ensures ok ==> functions == SortedFunctions(pe, i.directory, i.directorySize)
    ensures ok ==> Described(pe, functions, cfi, paths, ranges) && RangesInside(ranges, pe)
  {
    pe, functions, ranges, cfi, paths := Pe([], [], []), [], [], [], [];
    if !ValidLayout(i.layout, |i.data|) {
      return false, pe, [], [], [], [];
    }
    var accepted := CheckSections(i.table, i.layout, |i.data|);
    if !accepted {
      return false, pe, [], [], [], [];
    }
    var image := AssembleImage(i.data, i.table, i.layout);
    pe := Pe(image[..], MappedRanges(i.table, i.layout, |i.data|), ExecutableRanges(i.table, i.layout, |i.data|));
    ExecutableProper(i.table, i.layout, |i.data|);
    var all;
    ok, ranges, functions, all, paths := UnwindTables.DescribeCode(pe, i.directory, i.directorySize);
    cfi := all;
    if ok {
      CoverInside(ranges, cfi, pe);
    }
  }

  // ----- symbols

  /** The records and strings of the layout, with those of the symbols filled in. */
  function Filled(others: Rest, symbols: seq<Symbol>, buckets: seq<nat>, chains: seq<nat>): Rest {
    others.(dynstr := StringTable(symbols), nullSymbol := Zeros(24), symbols := SymbolRecords(symbols),
            hash := HashTable(buckets, chains))
  }

  function FilledAt(others: Renderer, symbols: seq<Symbol>, buckets: seq<nat>, chains: seq<nat>): Renderer
    requires |symbols| >= 5
  {
    (at: ElfLayout.Layout) => Filled(others(at), Placed(symbols, at.front.rodata), buckets, chains)
  }

  function CountsFor(image: nat, symbols: seq<Symbol>, ranges: seq<CfiRange>): ElfLayout.Counts {
    ElfLayout.Counts(image, |symbols|, |StringTable(symbols)|, |ranges|)
  }

  /** The sizes of everything but the symbols' records. */
  predicate ShapedOthers(r: Rest) {
    && |r.ehdr| == 64 && |r.note| == 36 && |r.sourceSize| == 8 && |r.fingerprint| == 8 && |r.version| == 8
    && |r.dynamic| == 96 && |r.shstr| < 0x1_0000 && |r.sections| == 768
  }

  lemma {:induction false} HashSize(symbols: seq<Symbol>, buckets: seq<nat>, chains: seq<nat>)
    requires |buckets| == BucketCount(symbols) && |chains| == |symbols| + 1
    ensures |HashTable(buckets, chains)| == 4 * ElfLayout.HashWords(|symbols|)
  {
    ElfFile.ConcatSize(WordRecords(HashWordsOf(buckets, chains)), 4);
  }

  lemma {:induction false} FilledShaped(others: Rest, symbols: seq<Symbol>, buckets: seq<nat>, chains: seq<nat>,
                                        rodata: nat, c: ElfLayout.Counts)
    requires ShapedOthers(others) && |symbols| >= 5 && |buckets| == BucketCount(symbols) && |chains| == |symbols| + 1
    requires c.symbols == |symbols| && c.dynstr == |StringTable(symbols)|
    ensures Shaped(Filled(others, Placed(symbols, rodata), buckets, chains), c)
  {
    SameStrings(symbols, Placed(symbols, rodata));
    HashSize(symbols, buckets, chains);
  }

  /** Where a loaded file has the image and the unwind tables. */
  ghost predicate TablesLoaded(file: seq<Byte>, f: ElfLayout.Front, pe: Pe, p: Parts)
    requires |file| >= 624
  {
    && InMemory(file, 0, pe.image) && InMemory(file, f.ehFrameHdr, p.hdr) && InMemory(file, f.ehFrame, p.eh)
    && HeadersOf(file)[8] == ElfLayout.Whole(ElfLayout.PT_GNU_EH_FRAME, 4, f.ehFrameHdr, f.ehFrameHdr, |p.hdr|, 4)
  }

  /** And the bytes a name lookup reads. */
  ghost predicate SymbolsLoaded(file: seq<Byte>, f: ElfLayout.Front, symbols: seq<Symbol>, buckets: seq<nat>,
                                chains: seq<nat>)
    requires |file| >= 624
  {
    && InMemory(file, f.hash, HashTable(buckets, chains)) && InMemory(file, f.dynsym, SymbolTable(symbols))
    && InMemory(file, f.dynstr, StringTable(symbols))
  }

  /** Every address unwinds through the tables. */
  ghost predicate AllUnwind(pe: Pe, f: ElfLayout.Front, p: Parts, ranges: seq<CfiRange>)
    requires |p.hdr| >= 12 + 8 * |ranges|
  {
    && f.ehFrameHdr < 0x4000_0000_0000_0000 && f.ehFrame < 0x4000_0000_0000_0000
    && forall a: nat, sp: int :: UnwindTables.Unwinds(pe, p.hdr, f.ehFrameHdr, p.eh, f.ehFrame, 0, ranges, a, sp)
  }

  /** Every name leads to its symbol, if it is one to be looked up, and else nowhere. */
  ghost predicate AllLookUp(symbols: seq<Symbol>, buckets: seq<nat>, chains: seq<nat>) {
    forall key :: LooksUp(HashTable(buckets, chains), SymbolTable(symbols), StringTable(symbols), symbols, key)
  }

  /** The last unwind record is below 2 GiB; the distance check keeps where it starts below that, too. */
  predicate Fits(ranges: seq<CfiRange>) {
    ranges != [] ==> EhFrame.FdeSize(ranges[|ranges| - 1]) < 0x8000_0000
  }

  /** Where the last record starts. */
  lemma {:induction false} LastStart(emit: EhFrame.Emitter, p: nat, ranges: seq<CfiRange>) returns (q: nat)
    requires EhFrame.FdeTail(emit, p, ranges).Some? && ranges != []
    ensures emit(q, ranges[|ranges| - 1]).Some?
    ensures p + |EhFrame.FdeTail(emit, p, ranges).value| == q + |emit(q, ranges[|ranges| - 1]).value|
    decreases |ranges|
  {
    q := p;
    if |ranges| > 1 {
      q := LastStart(emit, p + |emit(p, ranges[0]).value|, ranges[1..]);
    }
  }

  /** A record of code below .eh_frame that passes the distance check starts below 2 GiB. */
  lemma {:induction false} StartsLow(q: nat, ehVa: EhFrameHdr.Va, r: CfiRange)
    requires EhFrame.FdeBytes(q, ehVa, 0, r).Some? && r.begin <= ehVa && q < 0x2000_0000_0000_0000
    ensures q <= 0x7FFF_FFF8
  {
    var x: int := r.begin - (ehVa + q + 8);
    assert Wrap64(x) == x + 0x1_0000_0000_0000_0000;
  }

  lemma {:induction false} SectionSize(ehVa: EhFrameHdr.Va, ranges: seq<CfiRange>)
    requires EhFrame.EhFrameBytes(ehVa, 0, ranges).Some?
    ensures EhFrame.FdeTail(EhFrame.FdeEmitter(ehVa, 0), EhFrame.CIE_SIZE, ranges).Some?
    ensures |EhFrame.EhFrameBytes(ehVa, 0, ranges).value|
            == EhFrame.CIE_SIZE + |EhFrame.FdeTail(EhFrame.FdeEmitter(ehVa, 0), EhFrame.CIE_SIZE, ranges).value| + 4
  {
    EhFrame.CieSize();
    ThreeLengths(EhFrame.CIE, EhFrame.FdeTail(EhFrame.FdeEmitter(ehVa, 0), EhFrame.CIE_SIZE, ranges).value, Zeros(4));
  }

  lemma {:induction false} ThreeLengths(a: seq<Byte>, b: seq<Byte>, c: seq<Byte>)
    ensures |a + b + c| == |a| + |b| + |c|
  {
  }

  /** Wherever this record is emitted, it starts and stays below 2 GiB. */
  ghost predicate Low(emit: EhFrame.Emitter, last: CfiRange) {
    forall q: nat {:trigger emit(q, last)} :: emit(q, last).Some? && q < 0x2000_0000_0000_0000 ==>
      q <= 0x7FFF_FFF8 && |emit(q, last).value| < 0x8000_0000
  }

  lemma {:induction false} RecordLow(ehVa: EhFrameHdr.Va, last: CfiRange)
    requires last.begin <= ehVa && EhFrame.FdeSize(last) < 0x8000_0000
    ensures Low(EhFrame.FdeEmitter(ehVa, 0), last)
  {
    forall q: nat | EhFrame.FdeBytes(q, ehVa, 0, last).Some? && q < 0x2000_0000_0000_0000
      ensures q <= 0x7FFF_FFF8 && |EhFrame.FdeBytes(q, ehVa, 0, last).value| < 0x8000_0000
    {
      StartsLow(q, ehVa, last);
    }
  }

  /** The section ends with its last record and the terminator: with that record in bounds, so is the section. */
  lemma {:induction false} SectionBound(emit: EhFrame.Emitter, ranges: seq<CfiRange>, p: nat, size: nat)
    requires EhFrame.FdeTail(emit, p, ranges).Some? && ranges != [] && Low(emit, ranges[|ranges| - 1])
    requires size == p + |EhFrame.FdeTail(emit, p, ranges).value| + 4 < 0x2000_0000_0000_0000
    ensures size <= 0x1_0000_0000
  {
    var q := LastStart(emit, p, ranges);
  }

  lemma {:induction false} SectionSmall(f: ElfLayout.Front, ranges: seq<CfiRange>)
    requires Emittable(f, ranges) && Fits(ranges)
    requires forall i :: 0 <= i < |ranges| ==> ranges[i].begin <= f.ehFrame
    ensures |EhFrame.EhFrameBytes(f.ehFrame, 0, ranges).value| <= 0x1_0000_0000
  {
    SectionSize(f.ehFrame, ranges);
    if ranges != [] {
      RecordLow(f.ehFrame, ranges[|ranges| - 1]);
      SectionBound(EhFrame.FdeEmitter(f.ehFrame, 0), ranges, EhFrame.CIE_SIZE,
                   |EhFrame.EhFrameBytes(f.ehFrame, 0, ranges).value|);
    }
  }

  lemma {:induction false} FrontPast(c: ElfLayout.Counts, f: ElfLayout.Front)
    requires ElfLayout.FrontInOrder(c, f)
    ensures c.image <= f.ehFrame
  {
  }

  /** Then no offset in the file reaches 2^62. */
  lemma {:induction false} FileSmall(c: ElfLayout.Counts, l: ElfLayout.Layout, p: Parts)
    requires Laid(c, l, p) && ElfLayout.Bounded(c) && |p.eh| <= 0x1_0000_0000
    ensures l.fileSize < 0x4000_0000_0000_0000
  {
  }

  /** Every range lies in the image. */
  predicate RangesInside(ranges: seq<CfiRange>, pe: Pe) {
    forall i :: 0 <= i < |ranges| ==> ranges[i].begin <= |pe.image|
  }

  lemma {:induction false} CoverInside(ranges: seq<CfiRange>, cfi: seq<CfiRange>, pe: Pe)
    requires ExactCover(ranges, cfi, pe.executable) && ProperRanges(pe.executable, |pe.image|)
    ensures RangesInside(ranges, pe)
  {
    forall i | 0 <= i < |ranges| ensures ranges[i].begin <= |pe.image| {
      var a: int := ranges[i].begin;
      assert Holds(ranges[i], a);
      assert Covered(ranges, a) && InRanges(pe.executable, a);
      var k :| 0 <= k < |pe.executable| && pe.executable[k].begin <= a < pe.executable[k].end;
    }
  }

  lemma {:induction false} WrittenUnwinds(pe: Pe, functions: seq<RuntimeFunction>, cfi: seq<CfiRange>,
                                          paths: seq<seq<U32>>,
                                          ranges: seq<CfiRange>, c: ElfLayout.Counts, l: ElfLayout.Layout, p: Parts)
    requires Described(pe, functions, cfi, paths, ranges) && Laid(c, l, p) && p.image == pe.image
    requires l.fileSize < 0x4000_0000_0000_0000 && |p.eh| <= 0x1_0000_0000
    requires EhFrame.EhFrameBytes(l.front.ehFrame, 0, ranges) == Some(p.eh)
    requires EhFrameHdr.TableLeads(p.hdr, l.front.ehFrameHdr, l.front.ehFrame, 0, ranges, EhFrame.FdeStarts(ranges))
    ensures l.fileSize >= 624 && TablesLoaded(FileOf(c, l, p), l.front, pe, p) && |p.hdr| >= 12 + 8 * |ranges|
    ensures AllUnwind(pe, l.front, p, ranges)
  {
    ImageInMemory(c, l, p);
    TablesInMemory(c, l, p);
    forall a: nat, sp: int
      ensures UnwindTables.Unwinds(pe, p.hdr, l.front.ehFrameHdr, p.eh, l.front.ehFrame, 0, ranges, a, sp)
    {
      SidecarUnwinds(pe, functions, cfi, paths, ranges, c, l, p, a, sp);
    }
  }

  /** What the file holds of the symbols. */
  lemma {:induction false} WrittenSymbols(c: ElfLayout.Counts, l: ElfLayout.Layout, p: Parts, others: Rest,
                                          symbols: seq<Symbol>, buckets: seq<nat>, chains: seq<nat>)
    requires Laid(c, l, p) && l.fileSize < 0x4000_0000_0000_0000 && p.rest == Filled(others, symbols, buckets, chains)
    ensures l.fileSize >= 624 && SymbolsLoaded(FileOf(c, l, p), l.front, symbols, buckets, chains)
  {
    SymbolsInMemory(c, l, p);
  }

  lemma {:induction false} AllNamesFound(symbols: seq<Symbol>, buckets: seq<nat>, chains: seq<nat>)
    requires Storable(symbols) && CStrings(symbols) && DistinctNames(symbols) && IndexFor(symbols, buckets, chains)
    requires |symbols| < 0xFFFF_FFFF
    ensures AllLookUp(symbols, buckets, chains)
  {
    forall key ensures LooksUp(HashTable(buckets, chains), SymbolTable(symbols), StringTable(symbols), symbols, key) {
      BytesLookupExact(symbols, buckets, chains, key);
    }
  }

  /** The symbols as written keep the names of those collected, and with names of 4 GiB at most they look up. */
  lemma {:induction false} PlacedLookUp(symbols: seq<Symbol>, firstFunction: nat, i: Input,
                                        functions: seq<RuntimeFunction>, rodata: nat,
                                        buckets: seq<nat>, chains: seq<nat>)
    requires Forwards(functions) && Collected(symbols, firstFunction, i.layout.imageSize, i.exports, i.dll, functions)
    requires 0 !in i.dll && forall e :: e in i.exports ==> 0 !in e.name
    requires IndexFor(symbols, buckets, chains) && |symbols| < 0x8000_0000 && rodata < 0x8000_0000_0000_0000
    requires |StringTable(symbols)| <= 0x1_0000_0000
    ensures AllLookUp(Placed(symbols, rodata), buckets, chains)
  {
    var placed := Placed(symbols, rodata);
    CollectedIsText(symbols, firstFunction, i.layout.imageSize, i.exports, i.dll, functions);
    PlacedInFields(symbols, firstFunction, i.layout.imageSize, i.exports, i.dll, functions, rodata);
    SameStrings(symbols, placed);
    SameIndex(symbols, placed, buckets, chains);
    assert SameNames(symbols, placed);
    AllNamesFound(placed, buckets, chains);
  }

  /** Loading the file gives the image, unwinds every address and looks every name up. */
  ghost predicate Works(file: seq<Byte>, pe: Pe, ranges: seq<CfiRange>, symbols: seq<Symbol>, buckets: seq<nat>,
                        chains: seq<nat>, l: ElfLayout.Layout, p: Parts)
  {
    && |file| >= 624 && |p.hdr| >= 12 + 8 * |ranges| && |symbols| >= 5
    && TablesLoaded(file, l.front, pe, p) && AllUnwind(pe, l.front, p, ranges)
    && SymbolsLoaded(file, l.front, Placed(symbols, l.front.rodata), buckets, chains)
    && (|StringTable(symbols)| <= 0x1_0000_0000 ==> AllLookUp(Placed(symbols, l.front.rodata), buckets, chains))
  }

  lemma {:induction false} WrittenWorks(i: Input, pe: Pe, functions: seq<RuntimeFunction>, cfi: seq<CfiRange>,
                                        paths: seq<seq<U32>>,
                                        ranges: seq<CfiRange>, symbols: seq<Symbol>, firstFunction: nat,
                                          buckets: seq<nat>,
                                        chains: seq<nat>, others: Rest, c: ElfLayout.Counts, l: ElfLayout.Layout,
                                          p: Parts)
    requires Described(pe, functions, cfi, paths, ranges) && Laid(c, l, p) && p.image == pe.image
    requires l.fileSize < 0x4000_0000_0000_0000 && |p.eh| <= 0x1_0000_0000
    requires EhFrame.EhFrameBytes(l.front.ehFrame, 0, ranges) == Some(p.eh)
    requires EhFrameHdr.TableLeads(p.hdr, l.front.ehFrameHdr, l.front.ehFrame, 0, ranges, EhFrame.FdeStarts(ranges))
    requires Forwards(functions) && Collected(symbols, firstFunction, i.layout.imageSize, i.exports, i.dll, functions)
    requires 0 !in i.dll && forall e :: e in i.exports ==> 0 !in e.name
    requires IndexFor(symbols, buckets, chains) && |symbols| < 0x8000_0000
    requires p.rest == Filled(others, Placed(symbols, l.front.rodata), buckets, chains)
    ensures Works(FileOf(c, l, p), pe, ranges, symbols, buckets, chains, l, p)
  {
    WrittenUnwinds(pe, functions, cfi, paths, ranges, c, l, p);
    WrittenSymbols(c, l, p, others, Placed(symbols, l.front.rodata), buckets, chains);
    if |StringTable(symbols)| <= 0x1_0000_0000 {
      PlacedLookUp(symbols, firstFunction, i, functions, l.front.rodata, buckets, chains);
    }
  }

  /** The five metadata symbols, then the exports, then the functions of the exception directory. */
  ghost predicate SymbolsOf(symbols: seq<Symbol>, pe: Pe, i: Input) {
    && (i.directorySize > 0 ==> i.directory + i.directorySize <= |pe.image|)
    && var functions := SortedFunctions(pe, i.directory, i.directorySize);
    && Forwards(functions)
    && exists first: nat :: Collected(symbols, first, i.layout.imageSize, i.exports, i.dll, functions)
  }

  /** The symbols and their index. */
  method MakeSymbols(i: Input, functions: seq<RuntimeFunction>)
    returns (symbols: seq<Symbol>, buckets: seq<nat>, chains: seq<nat>, ghost firstFunction: nat)
    requires Forwards(functions)
    ensures Collected(symbols, firstFunction, i.layout.imageSize, i.exports, i.dll, functions)
    ensures IndexFor(symbols, buckets, chains)
  {
    symbols, firstFunction := CollectSymbols(i.layout.imageSize, i.exports, i.dll, functions);
    buckets, chains := BuildIndex(symbols);
  }

  /** Renders the symbols with everything else, and writes the file. */
  method WriteSidecar(image: seq<Byte>, ranges: seq<CfiRange>, symbols: seq<Symbol>, buckets: seq<nat>,
                      chains: seq<nat>, shstr: nat, others: Renderer)
    returns (ok: bool, file: seq<Byte>, l: ElfLayout.Layout, p: Parts)
    requires ElfLayout.Bounded(CountsFor(|image|, symbols, ranges)) && shstr < 0x1_0000
    requires |symbols| >= 5 && |buckets| == BucketCount(symbols) && |chains| == |symbols| + 1
    requires forall at: ElfLayout.Layout {:trigger others(at)} ::
               ShapedOthers(others(at)) && |others(at).shstr| == shstr
    ensures var c := CountsFor(|image|, symbols, ranges);
            && ElfLayout.FrontInOrder(c, l.front) && (ok <==> Emittable(l.front, ranges))
            && (ok ==> Laid(c, l, p) && p.image == image && file == FileOf(c, l, p))
            && (ok ==> p.rest == Filled(others(l), Placed(symbols, l.front.rodata), buckets, chains))
            && (ok ==> |p.eh| == |EhFrame.EhFrameBytes(l.front.ehFrame, 0, ranges).value|)
            && (ok && |p.eh| <= 0x1_0000_0000 ==>
                  && EhFrame.EhFrameBytes(l.front.ehFrame, 0, ranges) == Some(p.eh)
                  && EhFrameHdr.TableLeads(p.hdr, l.front.ehFrameHdr, l.front.ehFrame, 0, ranges,
                                           EhFrame.FdeStarts(ranges)))
  {
    ghost var c := CountsFor(|image|, symbols, ranges);
    var render := FilledAt(others, symbols, buckets, chains);
    forall at: ElfLayout.Layout ensures Shaped(render(at), c) && |render(at).shstr| == shstr {
      assert ShapedOthers(others(at)) && |others(at).shstr| == shstr;
      FilledShaped(others(at), symbols, buckets, chains, at.front.rodata, c);
    }
    ok, file, l, p := BuildElf(CountsFor(|image|, symbols, ranges), image, ranges, shstr, render);
  }

  /** Other records of the right sizes, wherever things stand. */
  ghost predicate ShapedAt(others: Renderer, shstr: nat) {
    && shstr < 0x1_0000
    && forall at: ElfLayout.Layout {:trigger others(at)} :: ShapedOthers(others(at)) && |others(at).shstr| == shstr
  }

  /** Names as C strings. */
  predicate TextNames(i: Input) { 0 !in i.dll && forall e :: e in i.exports ==> 0 !in e.name }

  /** build_elf on a parsed file. */
  method Emit(i: Input, shstr: nat, others: Renderer, pe: Pe, functions: seq<RuntimeFunction>, ranges: seq<CfiRange>,
              ghost cfi: seq<CfiRange>, ghost paths: seq<seq<U32>>)
    returns (ok: bool, file: seq<Byte>, symbols: seq<Symbol>, buckets: seq<nat>, chains: seq<nat>, l: ElfLayout.Layout,
             p: Parts)
    requires TextNames(i) && ShapedAt(others, shstr) && Forwards(functions) && RangesInside(ranges, pe)
    requires Described(pe, functions, cfi, paths, ranges)
    ensures exists first: nat :: Collected(symbols, first, i.layout.imageSize, i.exports, i.dll, functions)
    ensures var c := CountsFor(|pe.image|, symbols, ranges);
            && (ElfLayout.Bounded(c) ==> ElfLayout.FrontInOrder(c, l.front))
            && (ok <==> ElfLayout.Bounded(c) && Emittable(l.front, ranges))
    ensures ok && Fits(ranges) ==> Works(file, pe, ranges, symbols, buckets, chains, l, p)
  {
    ghost var first;
    symbols, buckets, chains, first := MakeSymbols(i, functions);
    if !ElfLayout.Bounded(CountsFor(|pe.image|, symbols, ranges)) {
      l := ElfLayout.Layout(ElfLayout.Front(0, 0, 0, 0, 0, 0, 0), 0, 0, 0, 0, 0);
      p := Parts([], [], [], Rest([], [], [], [], [], [], [], [], [], [], [], []));
      return false, [], symbols, buckets, chains, l, p;
    }
    ok, file, l, p := WriteSidecar(pe.image, ranges, symbols, buckets, chains, shstr, others);
    if ok && Fits(ranges) {
      FrontPast(CountsFor(|pe.image|, symbols, ranges), l.front);
      SectionSmall(l.front, ranges);
      FileSmall(CountsFor(|pe.image|, symbols, ranges), l, p);
      WrittenWorks(i, pe, functions, cfi, paths, ranges, symbols, first, buckets, chains, others(l),
                   CountsFor(|pe.image|, symbols, ranges), l, p);
    }
  }

  /**
   * The whole sidecar. It is made exactly when the file parses and its unwind tables can be emitted at the addresses
   * the layout gives them. Loading it puts the PE image at address 0 with every section where its headers say, unwinds
   * every code address to the row its prolog asks for, and looks every name up; counts no vector can reach are refused.
   */
  method MakeSidecar(i: Input, shstr: nat, others: Renderer)
    returns (ok: bool, file: seq<Byte>, pe: Pe, ranges: seq<CfiRange>, symbols: seq<Symbol>, buckets: seq<nat>,
             chains: seq<nat>, l: ElfLayout.Layout, p: Parts)
    requires TextNames(i) && ShapedAt(others, shstr)
    ensures Accepted(i.table, i.layout, |i.data|) ==> ViewOf(pe, i)
    ensures Parses(pe, i) ==> SymbolsOf(symbols, pe, i)
    ensures var c := CountsFor(|pe.image|, symbols, ranges);
            && (Parses(pe, i) && ElfLayout.Bounded(c) ==> ElfLayout.FrontInOrder(c, l.front))
            && (ok <==> Parses(pe, i) && ElfLayout.Bounded(c) && Emittable(l.front, ranges))
    ensures ok && Fits(ranges) ==> Works(file, pe, ranges, symbols, buckets, chains, l, p)
  {
    var functions;
    ghost var cfi, paths;
    ok, pe, functions, ranges, cfi, paths := ParsePe(i);
    if !ok {
      file, symbols, buckets, chains := [], [], [], [];
      l := ElfLayout.Layout(ElfLayout.Front(0, 0, 0, 0, 0, 0, 0), 0, 0, 0, 0, 0);
      p := Parts([], [], [], Rest([], [], [], [], [], [], [], [], [], [], [], []));
      return;
    }
    ok, file, symbols, buckets, chains, l, p := Emit(i, shstr, others, pe, functions, ranges, cfi, paths);
  }
}
