/** The .eh_frame_hdr binary-search table (section 10.6.2 of the LSB Core specification) and lookups through it. */
module EhFrameHdr {
  import opened Bytes
  import opened Wrappers
  import opened CfiRanges
  import opened EhFrame
  import opened EhFrameReader

  /** A virtual address of the sidecar. */
  type Va = x: int | 0 <= x < 0x4000_0000_0000_0000

  /** Everything the header stores relative to itself must fit a signed 32-bit field. */
  predicate EntryFits(headerVa: Va, ehVa: Va, textVa: Va, begin: U32, fdeOffset: U32) {
    FitsSigned32(textVa + begin - headerVa) && FitsSigned32(ehVa + fdeOffset - headerVa)
  }

  function FunctionField(hdr: seq<Byte>, i: nat): U32
    requires |hdr| >= 20 + 8 * i
  {
    U32At(hdr, 12 + 8 * i)
  }

  function FdeField(hdr: seq<Byte>, i: nat): U32
    requires |hdr| >= 20 + 8 * i
  {
    U32At(hdr, 16 + 8 * i)
  }

  /** Entry i holds the relative addresses of a range's code and of its FDE. */
  predicate EntryIs(hdr: seq<Byte>, i: nat, headerVa: Va, ehVa: Va, textVa: Va, begin: U32, fdeOffset: U32) {
    && |hdr| >= 20 + 8 * i
    && FunctionField(hdr, i) == Wrap32(textVa + begin - headerVa)
    && FdeField(hdr, i) == Wrap32(ehVa + fdeOffset - headerVa)
  }

  lemma {:induction false} EntryKept(before: seq<Byte>, more: seq<Byte>, i: nat, headerVa: Va, ehVa: Va, textVa: Va,
                                     begin: U32, fdeOffset: U32)
    requires EntryIs(before, i, headerVa, ehVa, textVa, begin, fdeOffset)
    ensures EntryIs(before + more, i, headerVa, ehVa, textVa, begin, fdeOffset)
  {
  }

  lemma {:induction false} WordAppended(before: seq<Byte>, v: U32, more: seq<Byte>)
    ensures U32At(before + U32Bytes(v) + more, |before|) == v
  {
    var s := before + U32Bytes(v) + more;
    assert s[|before|..|before| + 4] == U32Bytes(v);
    U32RoundTrip(s, |before|, v);
  }

  method AppendEntry(out: ByteVector, ghost i: nat, headerVa: Va, ehVa: Va, textVa: Va, begin: U32,
                     fdeOffset: U32) returns (ok: bool)
    requires |out.bytes| == 12 + 8 * i
    modifies out
    ensures ok == EntryFits(headerVa, ehVa, textVa, begin, fdeOffset)
    ensures ok ==> |out.bytes| == 20 + 8 * i && out.bytes[..12 + 8 * i] == old(out.bytes)
    ensures ok ==> EntryIs(out.bytes, i, headerVa, ehVa, textVa, begin, fdeOffset)
  {
    ghost var before := out.bytes;
    var toCode: int := textVa + begin - headerVa;
    if !FitsSigned32(toCode) {
      return false;
    }
    out.AppendU32(Wrap32(toCode));
    var toFde: int := ehVa + fdeOffset - headerVa;
    if !FitsSigned32(toFde) {
      return false;
    }
    ghost var middle := out.bytes;
    out.AppendU32(Wrap32(toFde));
    WordAppended(before, Wrap32(toCode), U32Bytes(Wrap32(toFde)));
    WordAppended(middle, Wrap32(toFde), []);
    EmptyLeft(out.bytes, []);
    ok := true;
  }

  /** The first n entries describe the first n ranges. */
  predicate TableIs(hdr: seq<Byte>, n: nat, headerVa: Va, ehVa: Va, textVa: Va, ranges: seq<CfiRange>,
                    fdeOffsets: seq<U32>)
    requires n <= |ranges| && |fdeOffsets| == |ranges|
  {
    forall i :: 0 <= i < n ==> EntryIs(hdr, i, headerVa, ehVa, textVa, ranges[i].begin, fdeOffsets[i])
  }

  /** Version and encodings: pc-relative frame pointer, 32-bit count, table relative to the header. */
  predicate HeadIs(hdr: seq<Byte>, headerVa: Va, ehVa: Va, n: nat) {
    && |hdr| >= 12 && hdr[..4] == [1, 0x1b, 0x03, 0x3b]
    && U32At(hdr, 4) == Wrap32(ehVa - (headerVa + 4)) && U32At(hdr, 8) == Wrap32(n)
  }

  method AppendHead(out: ByteVector, headerVa: Va, ehVa: Va, n: nat) returns (ok: bool)
    requires out.bytes == []
    modifies out
    ensures ok <==> FitsSigned32(ehVa - (headerVa + 4))
    ensures ok ==> |out.bytes| == 12 && HeadIs(out.bytes, headerVa, ehVa, n)
  {
    var version: seq<Byte> := [1, 0x1b, 0x03, 0x3b];
    out.bytes := version;
    var toFrame: int := ehVa - (headerVa + 4);
    if !FitsSigned32(toFrame) {
      return false;
    }
    out.AppendU32(Wrap32(toFrame));
    out.AppendU32(Wrap32(n));
    WordAppended(version, Wrap32(toFrame), U32Bytes(Wrap32(n)));
    WordAppended(version + U32Bytes(Wrap32(toFrame)), Wrap32(n), []);
    EmptyLeft(out.bytes, []);
    ok := true;
  }

  predicate AllFit(headerVa: Va, ehVa: Va, textVa: Va, ranges: seq<CfiRange>, fdeOffsets: seq<U32>, n: nat)
    requires n <= |ranges| == |fdeOffsets|
  {
    forall i :: 0 <= i < n ==> EntryFits(headerVa, ehVa, textVa, ranges[i].begin, fdeOffsets[i])
  }

  method AppendTable(out: ByteVector, headerVa: Va, ehVa: Va, textVa: Va, ranges: seq<CfiRange>,
                     fdeOffsets: seq<U32>) returns (ok: bool)
    requires |fdeOffsets| == |ranges| && |out.bytes| == 12
    modifies out
    ensures ok <==> AllFit(headerVa, ehVa, textVa, ranges, fdeOffsets, |ranges|)
    ensures ok ==> |out.bytes| == 12 + 8 * |ranges| && out.bytes[..12] == old(out.bytes)
    ensures ok ==> TableIs(out.bytes, |ranges|, headerVa, ehVa, textVa, ranges, fdeOffsets)
  {
    var index := 0;
    while index < |ranges|
      invariant 0 <= index <= |ranges| && |out.bytes| == 12 + 8 * index && out.bytes[..12] == old(out.bytes)
      invariant TableIs(out.bytes, index, headerVa, ehVa, textVa, ranges, fdeOffsets)
      invariant AllFit(headerVa, ehVa, textVa, ranges, fdeOffsets, index)
    {
      ghost var before := out.bytes;
      ok := AppendEntry(out, index, headerVa, ehVa, textVa, ranges[index].begin, fdeOffsets[index]);
      if !ok {
        return;
      }
      TableKept(before, out.bytes, index, headerVa, ehVa, textVa, ranges, fdeOffsets);
      index := index + 1;
    }
    ok := true;
  }

  method BuildEhFrameHdr(headerVa: Va, ehVa: Va, textVa: Va, ranges: seq<CfiRange>, fdeOffsets: seq<U32>)
    returns (ok: bool, bytes: seq<Byte>)
    requires |fdeOffsets| == |ranges|
    ensures ok <==> FitsSigned32(ehVa - (headerVa + 4)) && AllFit(headerVa, ehVa, textVa, ranges, fdeOffsets, |ranges|)
    ensures ok ==> |bytes| == 12 + 8 * |ranges| && HeadIs(bytes, headerVa, ehVa, |ranges|)
    ensures ok ==> TableIs(bytes, |ranges|, headerVa, ehVa, textVa, ranges, fdeOffsets)
  {
    var out := new ByteVector();
    bytes := [];
    ok := AppendHead(out, headerVa, ehVa, |ranges|);
    if !ok {
      return;
    }
    ghost var head := out.bytes;
    ok := AppendTable(out, headerVa, ehVa, textVa, ranges, fdeOffsets);
    if ok {
      HeadKept(head, out.bytes);
      bytes := out.bytes;
    }
  }

  lemma {:induction false} HeadKept(head: seq<Byte>, bytes: seq<Byte>)
    requires |head| == 12 && |bytes| >= 12 && bytes[..12] == head
    ensures bytes[..4] == head[..4] && U32At(bytes, 4) == U32At(head, 4) && U32At(bytes, 8) == U32At(head, 8)
  {
    assert forall k :: 0 <= k < 12 ==> bytes[k] == bytes[..12][k];
  }

  lemma {:induction false} TableKept(before: seq<Byte>, after: seq<Byte>, n: nat, headerVa: Va, ehVa: Va, textVa: Va,
                                     ranges: seq<CfiRange>, fdeOffsets: seq<U32>)
    requires n <= |ranges| && |fdeOffsets| == |ranges| && |before| <= |after| && after[..|before|] == before
    requires TableIs(before, n, headerVa, ehVa, textVa, ranges, fdeOffsets)
    ensures TableIs(after, n, headerVa, ehVa, textVa, ranges, fdeOffsets)
  {
    assert after == before + after[|before|..];
    forall i | 0 <= i < n ensures EntryIs(after, i, headerVa, ehVa, textVa, ranges[i].begin, fdeOffsets[i]) {
      EntryKept(before, after[|before|..], i, headerVa, ehVa, textVa, ranges[i].begin, fdeOffsets[i]);
    }
  }

  // ----- a consumer

  /** The code address of an entry. */
  function CodeAddress(hdr: seq<Byte>, headerVa: Va, i: nat): int
    requires |hdr| >= 20 + 8 * i
  {
    headerVa + Signed32(FunctionField(hdr, i))
  }

  predicate AscendingTable(hdr: seq<Byte>, headerVa: Va, n: nat)
    requires |hdr| >= 12 + 8 * n
  {
    forall i, j :: 0 <= i < j < n ==> CodeAddress(hdr, headerVa, i) < CodeAddress(hdr, headerVa, j)
  }

  /** Binary search for the last entry at or before pc; index is one past it, so zero means none. */
  method Search(hdr: seq<Byte>, headerVa: Va, n: nat, pc: int) returns (index: nat)
    requires |hdr| >= 12 + 8 * n && AscendingTable(hdr, headerVa, n)
    ensures index <= n
    ensures forall i :: 0 <= i < index ==> CodeAddress(hdr, headerVa, i) <= pc
    ensures forall i :: index <= i < n ==> CodeAddress(hdr, headerVa, i) > pc
  {
    var low, high := 0, n;
    while low < high
      invariant 0 <= low <= high <= n
      invariant forall i :: 0 <= i < low ==> CodeAddress(hdr, headerVa, i) <= pc
      invariant forall i :: high <= i < n ==> CodeAddress(hdr, headerVa, i) > pc
    {
      var mid := (low + high) / 2;
      if CodeAddress(hdr, headerVa, mid) <= pc {
        low := mid + 1;
      } else {
        high := mid;
      }
    }
    index := low;
  }

  predicate CoversPc(f: Fde, pc: int) { f.pcBegin <= pc < f.pcBegin + f.pcRange }

  /** What an unwinder without the table does: the first FDE whose range holds pc. */
  function LinearScan(fdes: seq<Fde>, pc: int): Option<Fde> {
    if fdes == [] then None
    else if CoversPc(fdes[0], pc) then Some(fdes[0])
    else LinearScan(fdes[1..], pc)
  }

  /** The table entry gives the FDE's address; the FDE itself says whether it covers pc. */
  method Lookup(hdr: seq<Byte>, headerVa: Va, read: FdeAt, ehVa: Va, n: nat, pc: int) returns (r: Option<Fde>)
    requires |hdr| >= 12 + 8 * n && AscendingTable(hdr, headerVa, n)
    ensures r == LookupSpec(hdr, headerVa, read, ehVa, n, pc)
  {
    var index := Search(hdr, headerVa, n, pc);
    SearchIsLast(hdr, headerVa, n, pc, index);
    if index == 0 {
      return None;
    }
    r := Candidate(hdr, headerVa, read, ehVa, index - 1, pc);
  }

  function Candidate(hdr: seq<Byte>, headerVa: Va, read: FdeAt, ehVa: Va, i: nat, pc: int): Option<Fde>
    requires |hdr| >= 20 + 8 * i
  {
    var position := headerVa + Signed32(FdeField(hdr, i)) - ehVa;
    if position < 0 then None
    else
      var f :- read(position);
      if CoversPc(f, pc) then Some(f) else None
  }

  /** How many of the first n entries start at or before pc. */
  function CountUpTo(hdr: seq<Byte>, headerVa: Va, n: nat, pc: int): (k: nat)
    requires |hdr| >= 12 + 8 * n
    ensures k <= n
  {
    if n == 0 then 0
    else if CodeAddress(hdr, headerVa, n - 1) <= pc then n
    else CountUpTo(hdr, headerVa, n - 1, pc)
  }

  function LookupSpec(hdr: seq<Byte>, headerVa: Va, read: FdeAt, ehVa: Va, n: nat, pc: int): Option<Fde>
    requires |hdr| >= 12 + 8 * n
  {
    var k := CountUpTo(hdr, headerVa, n, pc);
    if k == 0 then None else Candidate(hdr, headerVa, read, ehVa, k - 1, pc)
  }

  lemma {:induction false} SearchIsLast(hdr: seq<Byte>, headerVa: Va, n: nat, pc: int, index: nat)
    requires |hdr| >= 12 + 8 * n && index <= n
    requires forall i :: 0 <= i < index ==> CodeAddress(hdr, headerVa, i) <= pc
    requires forall i :: index <= i < n ==> CodeAddress(hdr, headerVa, i) > pc
    ensures CountUpTo(hdr, headerVa, n, pc) == index
    decreases n
  {
    if index < n {
      SearchIsLast(hdr, headerVa, n - 1, pc, index);
    }
  }

  // ----- agreement with the section

  /** Entry i leads to range i and to its FDE. */
  predicate EntryLeads(hdr: seq<Byte>, i: nat, headerVa: Va, ehVa: Va, code: int, start: nat) {
    && |hdr| >= 20 + 8 * i
    && CodeAddress(hdr, headerVa, i) == code
    && headerVa + Signed32(FdeField(hdr, i)) - ehVa == start
  }

  /** The table leads to every range and to where its FDE starts. */
  predicate TableLeads(hdr: seq<Byte>, headerVa: Va, ehVa: Va, textVa: Va, ranges: seq<CfiRange>, starts: seq<nat>) {
    && |starts| == |ranges| && |hdr| == 12 + 8 * |ranges|
    && forall i :: 0 <= i < |ranges| ==> EntryLeads(hdr, i, headerVa, ehVa, textVa + ranges[i].begin, starts[i])
  }

  lemma {:induction false} EntryDecodes(hdr: seq<Byte>, i: nat, headerVa: Va, ehVa: Va, textVa: Va, begin: U32,
                                        start: U32)
    requires EntryFits(headerVa, ehVa, textVa, begin, start) && EntryIs(hdr, i, headerVa, ehVa, textVa, begin, start)
    ensures EntryLeads(hdr, i, headerVa, ehVa, textVa + begin, start)
  {
    Signed32Inverse(textVa + begin - headerVa);
    Signed32Inverse(ehVa + start - headerVa);
  }

  /** A built table leads where it should, provided the recorded offsets did not wrap. */
  lemma {:induction false} BuiltTableLeads(hdr: seq<Byte>, headerVa: Va, ehVa: Va, textVa: Va,
                                           ranges: seq<CfiRange>, fdeOffsets: seq<U32>, starts: seq<nat>)
    requires |fdeOffsets| == |ranges| == |starts| && |hdr| == 12 + 8 * |ranges|
    requires TableIs(hdr, |ranges|, headerVa, ehVa, textVa, ranges, fdeOffsets)
    requires AllFit(headerVa, ehVa, textVa, ranges, fdeOffsets, |ranges|)
    requires forall i :: 0 <= i < |ranges| ==> fdeOffsets[i] == starts[i]
    ensures TableLeads(hdr, headerVa, ehVa, textVa, ranges, starts)
  {
    forall i | 0 <= i < |ranges| ensures EntryLeads(hdr, i, headerVa, ehVa, textVa + ranges[i].begin, starts[i]) {
      assert EntryIs(hdr, i, headerVa, ehVa, textVa, ranges[i].begin, fdeOffsets[i]);
      EntryDecodes(hdr, i, headerVa, ehVa, textVa, ranges[i].begin, fdeOffsets[i]);
    }
  }

  lemma {:induction false} TableAscends(hdr: seq<Byte>, headerVa: Va, ehVa: Va, textVa: Va, ranges: seq<CfiRange>,
                                        starts: seq<nat>)
    requires TableLeads(hdr, headerVa, ehVa, textVa, ranges, starts) && Separated(ranges)
    ensures AscendingTable(hdr, headerVa, |ranges|)
    ensures forall i :: 0 <= i < |ranges| ==> CodeAddress(hdr, headerVa, i) == textVa + ranges[i].begin
  {
    forall i | 0 <= i < |ranges| ensures CodeAddress(hdr, headerVa, i) == textVa + ranges[i].begin {
      assert EntryLeads(hdr, i, headerVa, ehVa, textVa + ranges[i].begin, starts[i]);
    }
  }

  /** What the FDE of a range says about the addresses it covers. */
  ghost predicate CoversRange(want: Expectation, textVa: Va) {
    forall p: nat, r: CfiRange, a: int :: r.begin < r.end ==> (CoversPc(want(p, r), textVa + a) <==> Holds(r, a))
  }

  lemma {:induction false} ExpectedCovers(textVa: Va)
    ensures CoversRange(Expected(textVa), textVa)
  {
    forall p: nat, r: CfiRange, a: int | r.begin < r.end
      ensures CoversPc(Expected(textVa)(p, r), textVa + a) <==> Holds(r, a)
    {
      ExpectedNumbers(textVa, p, r);
    }
  }

  /** What the section holds about a range, in plain numbers. */
  lemma {:induction false} ExpectedNumbers(textVa: Va, p: nat, r: CfiRange)
    requires r.begin < r.end
    ensures ExpectedFde(textVa, p, r) == Fde(p, 0, textVa + r.begin, r.end - r.begin, ProgramOf(r))
  {
  }

  /** Each FDE can be read at its start. */
  predicate ReadsBack(read: FdeAt, want: Expectation, ranges: seq<CfiRange>, starts: seq<nat>) {
    |starts| == |ranges| && forall i :: 0 <= i < |ranges| ==> read(starts[i]) == Some(want(starts[i], ranges[i]))
  }

  /** The index of the range that holds address a, or the number of ranges. */
  function Holder(ranges: seq<CfiRange>, a: int): (i: nat)
    ensures i <= |ranges|
    ensures i < |ranges| ==> Holds(ranges[i], a)
    ensures forall k :: 0 <= k < i ==> !Holds(ranges[k], a)
  {
    if ranges == [] || Holds(ranges[0], a) then 0 else
      var i := Holder(ranges[1..], a);
      assert forall k :: 1 <= k < i + 1 ==> ranges[k] == ranges[1..][k - 1];
      i + 1
  }

  function FdeOfHolder(want: Expectation, starts: seq<nat>, ranges: seq<CfiRange>, a: int): Option<Fde>
    requires |starts| == |ranges|
  {
    var i := Holder(ranges, a);
    if i < |ranges| then Some(want(starts[i], ranges[i])) else None
  }

  lemma {:induction false} LinearFinds(want: Expectation, textVa: Va, starts: seq<nat>, ranges: seq<CfiRange>, a: int)
    requires |starts| == |ranges| && CoversRange(want, textVa) && forall k :: 0 <= k < |ranges| ==>
             ranges[k].begin < ranges[k].end
    ensures LinearScan(ExpectedFdes(want, starts, ranges), textVa + a) == FdeOfHolder(want, starts, ranges, a)
    decreases |ranges|
  {
    if ranges != [] {
      var fdes := ExpectedFdes(want, starts, ranges);
      assert fdes[0] == want(starts[0], ranges[0]);
      assert fdes[1..] == ExpectedFdes(want, starts[1..], ranges[1..]);
      LinearFinds(want, textVa, starts[1..], ranges[1..], a);
    }
  }

  lemma {:induction false} CountAtHolder(hdr: seq<Byte>, headerVa: Va, textVa: Va, ranges: seq<CfiRange>, n: nat,
                                         a: int)
    requires n <= |ranges| && |hdr| >= 12 + 8 * n
    requires forall i :: 0 <= i < n ==> CodeAddress(hdr, headerVa, i) == textVa + ranges[i].begin
    requires Separated(ranges)
    ensures var k := CountUpTo(hdr, headerVa, n, textVa + a);
            && (k > 0 ==> ranges[k - 1].begin <= a)
            && (forall i :: k <= i < n ==> ranges[i].begin > a)
    decreases n
  {
    if n > 0 && CodeAddress(hdr, headerVa, n - 1) > textVa + a {
      CountAtHolder(hdr, headerVa, textVa, ranges, n - 1, a);
    }
  }

  /** In separated ranges, the last one starting at or before a is the only one that can hold it. */
  lemma {:induction false} LastStartHolds(ranges: seq<CfiRange>, k: nat, a: int)
    requires Separated(ranges) && k <= |ranges|
    requires k > 0 ==> ranges[k - 1].begin <= a
    requires forall i :: k <= i < |ranges| ==> ranges[i].begin > a
    ensures Holder(ranges, a) == if k > 0 && Holds(ranges[k - 1], a) then k - 1 else |ranges|
  {
    assert k > 0 ==> forall h :: 0 <= h < k - 1 ==> ranges[h].end <= ranges[k - 1].begin;
  }

  lemma {:induction false} CandidateIs(hdr: seq<Byte>, headerVa: Va, read: FdeAt, want: Expectation, ehVa: Va,
                                       textVa: Va, r: CfiRange, start: nat, i: nat, a: int)
    requires EntryLeads(hdr, i, headerVa, ehVa, textVa + r.begin, start)
    requires read(start) == Some(want(start, r)) && CoversRange(want, textVa) && r.begin < r.end
    ensures Candidate(hdr, headerVa, read, ehVa, i, textVa + a) == if Holds(r, a) then Some(want(start, r)) else None
  {
  }

  /** Looking an address up gives the FDE of the range that holds it, or nothing. */
  lemma {:induction false} LookupFinds(hdr: seq<Byte>, headerVa: Va, read: FdeAt, want: Expectation, ehVa: Va,
                                       textVa: Va, ranges: seq<CfiRange>, starts: seq<nat>, a: int)
    requires TableLeads(hdr, headerVa, ehVa, textVa, ranges, starts) && Separated(ranges)
    requires ReadsBack(read, want, ranges, starts) && CoversRange(want, textVa)
    ensures LookupSpec(hdr, headerVa, read, ehVa, |ranges|, textVa + a) == FdeOfHolder(want, starts, ranges, a)
  {
    TableAscends(hdr, headerVa, ehVa, textVa, ranges, starts);
    var k := CountUpTo(hdr, headerVa, |ranges|, textVa + a);
    CountAtHolder(hdr, headerVa, textVa, ranges, |ranges|, a);
    LastStartHolds(ranges, k, a);
    if k > 0 {
      assert EntryLeads(hdr, k - 1, headerVa, ehVa, textVa + ranges[k - 1].begin, starts[k - 1]);
      CandidateIs(hdr, headerVa, read, want, ehVa, textVa, ranges[k - 1], starts[k - 1], k - 1, a);
    }
  }

  /**
   * The table agrees with reading the whole section: for every address, the entry found by binary search leads to
   * the FDE that a linear scan finds, and to none exactly where there is none.
   */
  lemma {:induction false} TableAgreesWithScan(hdr: seq<Byte>, headerVa: Va, eh: seq<Byte>, ehVa: Va, textVa: Va,
                                               ranges: seq<CfiRange>, a: int)
    requires EhFrameBytes(ehVa, textVa, ranges) == Some(eh) && |eh| <= 0x1_0000_0000
    requires TableLeads(hdr, headerVa, ehVa, textVa, ranges, FdeStarts(ranges)) && Separated(ranges)
    ensures AscendingTable(hdr, headerVa, |ranges|)
    ensures ReadFdes(eh, FdeReader(eh, ehVa), CIE_SIZE).Some?
    ensures LookupSpec(hdr, headerVa, FdeReader(eh, ehVa), ehVa, |ranges|, textVa + a)
            == LinearScan(ReadFdes(eh, FdeReader(eh, ehVa), CIE_SIZE).value, textVa + a)
  {
    TableAscends(hdr, headerVa, ehVa, textVa, ranges, FdeStarts(ranges));
    SectionReads(ehVa, textVa, ranges);
    ExpectedCovers(textVa);
    LinearFinds(Expected(textVa), textVa, FdeStarts(ranges), ranges, a);
    SectionReadsBack(eh, ehVa, textVa, ranges);
    LookupFinds(hdr, headerVa, FdeReader(eh, ehVa), Expected(textVa), ehVa, textVa, ranges, FdeStarts(ranges), a);
  }

  lemma {:induction false} SectionReadsBack(eh: seq<Byte>, ehVa: Va, textVa: Va, ranges: seq<CfiRange>)
    requires EhFrameBytes(ehVa, textVa, ranges) == Some(eh) && |eh| <= 0x1_0000_0000
    ensures ReadsBack(FdeReader(eh, ehVa), Expected(textVa), ranges, FdeStarts(ranges))
    ensures forall i :: 0 <= i < |ranges| ==> FdeStarts(ranges)[i] < |eh|
  {
    forall i | 0 <= i < |ranges|
      ensures FdeReader(eh, ehVa)(FdeStarts(ranges)[i]) == Some(Expected(textVa)(FdeStarts(ranges)[i], ranges[i]))
      ensures FdeStarts(ranges)[i] < |eh|
    {
      FdeReadsAlone(ehVa, textVa, ranges, i);
    }
  }
}
