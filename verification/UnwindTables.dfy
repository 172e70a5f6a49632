/** From runtime functions to the two unwind sections, and what an unwinder gets out of them. */
module UnwindTables {
  import opened Bytes
  import opened Wrappers
  import opened Sorting
  import opened Prolog
  import opened CallFrame
  import opened Compile
  import opened UnwindMeaning
  import opened PeView
  import opened Sections
  import opened ChainResolve
  import opened CfiRanges
  import opened EhFrame
  import opened EhFrameReader
  import opened EhFrameHdr

  /** The unwind part of what parse_pe accepts. */
  ghost predicate AcceptableUnwind(pe: Pe, rva: U32, size: U32) {
    AcceptableDirectory(pe, rva, size) && Describable(SortedFunctions(pe, rva, size), RecordsOf(pe))
  }

  /** parse_pe's unwind part, then make_cfi_ranges. */
  method DescribeCode(pe: Pe, rva: U32, size: U32)
    returns (ok: bool, ranges: seq<CfiRange>, functions: seq<RuntimeFunction>, cfi: seq<CfiRange>,
             ghost paths: seq<seq<U32>>)
    requires NonEmpty(pe.executable) && PairwiseApart(pe.executable)
    ensures ok <==> AcceptableUnwind(pe, rva, size)
    ensures ok ==> functions == SortedFunctions(pe, rva, size) && ProperFunctions(functions, pe.executable)
    ensures ok ==> ExactCover(ranges, cfi, pe.executable)
    ensures ok ==> Describes(cfi, functions, RecordsOf(pe), paths)
  {
    ranges, cfi, paths := [], [], [];
    ok, functions := ReadRuntimeFunctions(pe, rva, size);
    if !ok {
      return;
    }
    var resolver := new Resolver(RecordsOf(pe));
    ok, cfi, paths := BuildCfi(resolver, functions);
    if !ok {
      return;
    }
    DescribedExtents(cfi, functions, resolver.rec, paths);
    ranges := MakeCfiRanges(cfi, functions, pe.executable);
    TilesAllCode(cfi, functions, pe.executable);
  }

  lemma {:induction false} DescribedExtents(cfi: seq<CfiRange>, fs: seq<RuntimeFunction>, rec: Records,
                                            paths: seq<seq<U32>>)
    requires Describes(cfi, fs, rec, paths)
    ensures SameExtents(cfi, fs)
  {
    assert forall i :: 0 <= i < |fs| ==> DescribesOne(cfi[i], fs[i], rec, paths[i]);
  }

  /** Every offset of the search table fits 32 bits; the record offsets are those of 32-bit arithmetic. */
  predicate HeaderFits(headerVa: Va, ehVa: Va, textVa: Va, ranges: seq<CfiRange>) {
    && FitsSigned32(ehVa - (headerVa + 4)) && |FdeStarts(ranges)| == |ranges|
    && forall i :: 0 <= i < |ranges| ==> EntryFits(headerVa, ehVa, textVa, ranges[i].begin,
                                                   Wrap32(FdeStarts(ranges)[i]))
  }

  lemma {:induction false} HeaderFitsIs(headerVa: Va, ehVa: Va, textVa: Va, ranges: seq<CfiRange>, offsets: seq<U32>)
    requires |offsets| == |ranges| == |FdeStarts(ranges)|
    requires forall i :: 0 <= i < |ranges| ==> offsets[i] == Wrap32(FdeStarts(ranges)[i])
    ensures HeaderFits(headerVa, ehVa, textVa, ranges) <==>
            FitsSigned32(ehVa - (headerVa + 4)) && AllFit(headerVa, ehVa, textVa, ranges, offsets, |ranges|)
  {
    if HeaderFits(headerVa, ehVa, textVa, ranges) {
      forall i | 0 <= i < |ranges| ensures EntryFits(headerVa, ehVa, textVa, ranges[i].begin, offsets[i]) {
        assert offsets[i] == Wrap32(FdeStarts(ranges)[i]);
      }
    }
    if AllFit(headerVa, ehVa, textVa, ranges, offsets, |ranges|) {
      forall i | 0 <= i < |ranges|
        ensures EntryFits(headerVa, ehVa, textVa, ranges[i].begin, Wrap32(FdeStarts(ranges)[i]))
      {
        assert EntryFits(headerVa, ehVa, textVa, ranges[i].begin, offsets[i]);
      }
    }
  }

  /** build_elf's unwind part: the section, then its search table. */
  method EmitTables(ranges: seq<CfiRange>, headerVa: Va, ehVa: Va, textVa: Va) returns (ok: bool, hdr: seq<Byte>,
                    eh: seq<Byte>)
    ensures ok <==> EhFrameBytes(ehVa, textVa, ranges).Some? && HeaderFits(headerVa, ehVa, textVa, ranges)
    ensures ok ==> |eh| == |EhFrameBytes(ehVa, textVa, ranges).value|
    ensures ok ==> |hdr| == 12 + 8 * |ranges| && HeadIs(hdr, headerVa, ehVa, |ranges|)
    ensures ok && |eh| <= 0x1_0000_0000 ==> EhFrameBytes(ehVa, textVa, ranges) == Some(eh)
    ensures ok && |eh| <= 0x1_0000_0000 ==> TableLeads(hdr, headerVa, ehVa, textVa, ranges, FdeStarts(ranges))
  {
    var offsets;
    hdr := [];
    ok, eh, offsets := BuildEhFrame(ehVa, textVa, ranges);
    if !ok {
      return;
    }
    HeaderFitsIs(headerVa, ehVa, textVa, ranges, offsets);
    ok, hdr := BuildEhFrameHdr(headerVa, ehVa, textVa, ranges, offsets);
    if ok && |eh| <= 0x1_0000_0000 {
      SectionReadsBack(eh, ehVa, textVa, ranges);
      BuiltTableLeads(hdr, headerVa, ehVa, textVa, ranges, offsets, FdeStarts(ranges));
    }
  }

  /** Operations as the decoder delivers them. */
  predicate DecodedRange(r: CfiRange) {
    AllWellFormed(r.inherited + r.operations) && SortedByOffset(r.operations)
  }

  /** Every range of a tiling carries decoded operations: those of its chain, or none. */
  lemma {:induction false} RangesDecoded(pe: Pe, functions: seq<RuntimeFunction>, cfi: seq<CfiRange>,
                                         paths: seq<seq<U32>>, ranges: seq<CfiRange>, i: nat)
    requires Describes(cfi, functions, RecordsOf(pe), paths) && ExactCover(ranges, cfi, pe.executable)
    requires i < |ranges|
    ensures DecodedRange(ranges[i])
  {
    if ranges[i] in cfi {
      var k :| 0 <= k < |cfi| && cfi[k] == ranges[i];
      assert DescribesOne(cfi[k], functions[k], RecordsOf(pe), paths[k]);
      AllRecordsDecoded(pe);
      ChainDecoded(RecordsOf(pe), paths[k]);
    }
  }

  lemma {:induction false} AllRecordsDecoded(pe: Pe)
    ensures forall r :: RecordsOf(pe)(r).Some? ==> DecodedRecord(RecordsOf(pe)(r).value)
  {
    forall r | RecordsOf(pe)(r).Some? ensures DecodedRecord(RecordsOf(pe)(r).value) {
      RecordsDecoded(pe, r);
    }
  }

  lemma {:induction false} ChainDecoded(rec: Records, path: seq<U32>)
    requires IsChain(rec, path) && forall r :: rec(r).Some? ==> DecodedRecord(rec(r).value)
    ensures AllWellFormed(ChainInfo(rec, path).inherited + ChainInfo(rec, path).operations)
    ensures SortedByOffset(ChainInfo(rec, path).operations)
  {
    ChainOpsWellFormed(rec, path[1..]);
    assert DecodedRecord(rec(path[0]).value);
  }

  /** Chains of up to 2^20 records, far beyond the recursion limit for a fresh one, always fit an address space. */
  lemma {:induction false} ShortChainsFit(rec: Records, path: seq<U32>)
    requires IsChain(rec, path) && |path| <= 0x10_0000 && forall r :: rec(r).Some? ==> DecodedRecord(rec(r).value)
    ensures FitsStack(ChainInfo(rec, path).inherited + ChainInfo(rec, path).operations)
  {
    ChainOpsWellFormed(rec, path);
    UseBound(ChainOps(rec, path));
  }

  lemma {:induction false} UseBound(ops: seq<Operation>)
    ensures TotalUse(ops) <= 0x1_0000_0000 * |ops|
  {
    if ops != [] {
      UseBound(ops[1..]);
    }
  }

  /**
   * The FDE is that of range r, and for the address a in it, running its instructions up to a gives the frame top and
   * the slot of every saved register, as the prolog operations executed by then left them, if machine frames are
   * settled in what has executed; and in an address space only then.
   */
  predicate RowRight(f: Fde, r: CfiRange, textVa: Va, a: nat, sp: int) {
    && Holds(r, a) && f.pcBegin == textVa + r.begin && f.pcRange == r.end - r.begin
    && var done := Done(r.inherited, r.operations, a - r.begin);
    var right := Faithful(RowIn(f.program, 0, CIE_ROW, a - r.begin), Run(Entry(sp), done));
    && (MachineSettled(done) ==> right)
    && (right && FitsStack(r.inherited + r.operations) ==> MachineSettled(done))
  }

  lemma {:induction false} RangeUnwinds(r: CfiRange, textVa: Va, p: nat, a: nat, sp: int)
    requires Compiles(r) && DecodedRange(r) && Holds(r, a)
    ensures RowRight(ExpectedFde(textVa, p, r), r, textVa, a, sp)
  {
    var d: int := a - r.begin;
    ExpectedNumbers(textVa, p, r);
    assert RowOf(r.inherited, r.operations, PaddingOf(r), d) == RowIn(ExpectedFde(textVa, p, r).program, 0, CIE_ROW, d);
    if MachineSettled(Done(r.inherited, r.operations, d)) {
      MeaningPreserved(r.inherited, r.operations, sp, PaddingOf(r), d);
    } else if FitsStack(r.inherited + r.operations) {
      RightExactly(r.inherited, r.operations, sp, PaddingOf(r), d);
    }
  }

  /** The row is right wherever a range of the tiling holds the address. */
  lemma {:induction false} TilingUnwinds(pe: Pe, eh: seq<Byte>, ehVa: Va, textVa: Va,
                                         functions: seq<RuntimeFunction>, cfi: seq<CfiRange>, paths: seq<seq<U32>>,
                                         ranges: seq<CfiRange>, i: nat, a: nat, sp: int)
    requires Describes(cfi, functions, RecordsOf(pe), paths) && ExactCover(ranges, cfi, pe.executable)
    requires EhFrameBytes(ehVa, textVa, ranges).Some? && i < |ranges| && Holds(ranges[i], a)
    ensures RowRight(Expected(textVa)(FdeStarts(ranges)[i], ranges[i]), ranges[i], textVa, a, sp)
  {
    StandsCompiled(ehVa, textVa, ranges, i);
    RangesDecoded(pe, functions, cfi, paths, ranges, i);
    RangeUnwinds(ranges[i], textVa, FdeStarts(ranges)[i], a, sp);
  }

  /** What looking up an address through the two sections gives. */
  ghost predicate Unwinds(pe: Pe, hdr: seq<Byte>, headerVa: Va, eh: seq<Byte>, ehVa: Va, textVa: Va,
                          ranges: seq<CfiRange>, a: nat, sp: int)
    requires |hdr| >= 12 + 8 * |ranges|
  {
    var found, i := LookupSpec(hdr, headerVa, FdeReader(eh, ehVa), ehVa, |ranges|, textVa + a), Holder(ranges, a);
    && (found.Some? <==> InRanges(pe.executable, a)) && (found.Some? <==> i < |ranges|)
    && (found.Some? ==> RowRight(found.value, ranges[i], textVa, a, sp))
  }

  /**
   * End to end: for every code address, looking it up in the emitted table finds the FDE of the one range that holds
   * it, and the decoded row is right there. Outside the code nothing is found.
   */
  lemma {:induction false} UnwindsEverywhere(pe: Pe, hdr: seq<Byte>, headerVa: Va, eh: seq<Byte>, ehVa: Va, textVa: Va,
                                             functions: seq<RuntimeFunction>, cfi: seq<CfiRange>, paths: seq<seq<U32>>,
                                             ranges: seq<CfiRange>, a: nat, sp: int)
    requires Describes(cfi, functions, RecordsOf(pe), paths) && ExactCover(ranges, cfi, pe.executable)
    requires EhFrameBytes(ehVa, textVa, ranges) == Some(eh) && |eh| <= 0x1_0000_0000
    requires TableLeads(hdr, headerVa, ehVa, textVa, ranges, FdeStarts(ranges))
    ensures Unwinds(pe, hdr, headerVa, eh, ehVa, textVa, ranges, a, sp)
  {
    var i := Holder(ranges, a);
    SectionReadsBack(eh, ehVa, textVa, ranges);
    ExpectedCovers(textVa);
    LookupFinds(hdr, headerVa, FdeReader(eh, ehVa), Expected(textVa), ehVa, textVa, ranges, FdeStarts(ranges), a);
    HolderIffCovered(ranges, a);
    if i < |ranges| {
      TilingUnwinds(pe, eh, ehVa, textVa, functions, cfi, paths, ranges, i, a, sp);
    }
  }

  lemma {:induction false} HolderIffCovered(ranges: seq<CfiRange>, a: int)
    ensures Holder(ranges, a) < |ranges| <==> Covered(ranges, a)
  {
  }

  lemma {:induction false} StandsCompiled(ehVa: U64, textVa: U64, ranges: seq<CfiRange>, i: nat)
    requires EhFrameBytes(ehVa, textVa, ranges).Some? && i < |ranges|
    ensures Compiles(ranges[i])
  {
    var p := EmittedSomewhere(FdeEmitter(ehVa, textVa), CIE_SIZE, ranges, i);
    assert FdeBytes(p, ehVa, textVa, ranges[i]).Some?;
  }

  lemma {:induction false} EmittedSomewhere(emit: Emitter, p: nat, ranges: seq<CfiRange>, i: nat) returns (q: nat)
    requires FdeTail(emit, p, ranges).Some? && i < |ranges|
    ensures emit(q, ranges[i]).Some?
    decreases i
  {
    q := p;
    if i > 0 {
      q := EmittedSomewhere(emit, p + |emit(p, ranges[0]).value|, ranges[1..], i - 1);
    }
  }
}
