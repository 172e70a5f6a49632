/** A consumer of .eh_frame, written from the format alone, and the round trip with the emitter. */
module EhFrameReader {
  import opened Bytes
  import opened Leb128
  import opened Wrappers
  import opened CallFrame
  import opened Compile
  import opened UnwindMeaning
  import opened CfiRanges
  import opened EhFrame

  datatype Cie = Cie(version: Byte, augmentation: seq<Byte>, codeAlign: nat, dataAlign: int, returnColumn: nat,
                     pointerEncoding: Byte, initial: Program)

  datatype Fde = Fde(start: nat, ciePosition: int, pcBegin: U64, pcRange: U32, program: Program)

  /** The CIE at the start of a section: version, "zR", alignments, return column, pointer encoding, instructions. */
  function ReadCie(s: seq<Byte>): Option<Cie> {
    if |s| < 4 then None
    else
      var length := U32At(s, 0);
      if length < 8 || 4 + length > |s| || U32At(s, 4) != 0 || s[9..12] != [0x7a, 0x52, 0] then None
      else ReadCieFields(s[8], s[9..11], s[12..4 + length])
  }

  function ReadCieFields(version: Byte, augmentation: seq<Byte>, s: seq<Byte>): Option<Cie> {
    var codeAlign :- ReadUleb(s);
    var dataAlign :- ReadSleb(codeAlign.rest);
    var column :- ReadUleb(dataAlign.rest);
    var augmentationLength :- ReadUleb(column.rest);
    if augmentationLength.value != 1 || augmentationLength.rest == [] then None
    else
      var initial :- ReadProgram(augmentationLength.rest[1..]);
      Some(Cie(version, augmentation, codeAlign.value, dataAlign.value, column.value, augmentationLength.rest[0],
               initial))
  }

  /** Augmentation data, skipped by its length, then instructions. */
  function ReadFdeProgram(t: seq<Byte>): Option<Program> {
    var augmentation :- ReadUleb(t);
    if augmentation.value > |augmentation.rest| then None else ReadProgram(augmentation.rest[augmentation.value..])
  }

  /** A pc-relative sdata4 field, for the FDE at p. */
  function PcTarget(va: U64, p: nat, field: U32): U64 { Wrap64(va + p + 8 + Signed32(field)) }

  /** The FDE whose length field is at p; the section is loaded at va. */
  function ReadFde(s: seq<Byte>, va: U64, p: nat): Option<Fde> {
    if p + 4 > |s| then None
    else
      var length := U32At(s, p);
      if length < 13 || p + 4 + length > |s| then None
      else
        var program :- ReadFdeProgram(s[p + 16..p + 4 + length]);
        Some(Fde(p, p + 4 - U32At(s, p + 4), PcTarget(va, p, U32At(s, p + 8)), U32At(s, p + 12), program))
  }

  type FdeAt = nat -> Option<Fde>

  function FdeReader(s: seq<Byte>, va: U64): FdeAt { (p: nat) => ReadFde(s, va, p) }

  /** All FDEs from p to the zero terminator. */
  function ReadFdes(s: seq<Byte>, read: FdeAt, p: nat): Option<seq<Fde>>
    decreases |s| - p
  {
    if p + 4 > |s| then None
    else
      var length := U32At(s, p);
      if length == 0 then Some([])
      else
        var first :- read(p);
        if p + 4 + length > |s| then None
        else
          var more :- ReadFdes(s, read, p + 4 + length);
          Some([first] + more)
  }

  // ----- round trip

  function ProgramOf(r: CfiRange): Program {
    if Compiles(r) then FunctionProgram(r.inherited, r.operations).value + Nops(PaddingOf(r)) else []
  }

  /** What reading the FDE of a range must give. */
  function ExpectedFde(textVa: U64, p: nat, r: CfiRange): Fde {
    Fde(p, 0, Wrap64(textVa + r.begin), Wrap32(r.end - r.begin), ProgramOf(r))
  }

  type Expectation = (nat, CfiRange) -> Fde

  function Expected(textVa: U64): Expectation { (p: nat, r: CfiRange) => ExpectedFde(textVa, p, r) }

  function ExpectedFdes(want: Expectation, starts: seq<nat>, ranges: seq<CfiRange>): seq<Fde>
    requires |starts| == |ranges|
  {
    if ranges == [] then [] else [want(starts[0], ranges[0])] + ExpectedFdes(want, starts[1..], ranges[1..])
  }

  lemma {:induction false} WrapIsMod(x: int)
    ensures Wrap64(x) == x % 0x1_0000_0000_0000_0000
  {
  }

  lemma {:induction false} ModShift(x: int, k: int)
    ensures (x + k * 0x1_0000_0000_0000_0000) % 0x1_0000_0000_0000_0000 == x % 0x1_0000_0000_0000_0000
  {
  }

  /** A wrapped, sign-extended difference added back gives the target address. */
  lemma {:induction false} WrapCancel(target: int, base: int)
    ensures Wrap64(base + Signed64(Wrap64(target - base))) == Wrap64(target)
  {
    var d := target - base;
    var w := 0x1_0000_0000_0000_0000;
    WrapIsMod(d);
    var q := d / w;
    var k := if Wrap64(d) < 0x8000_0000_0000_0000 then -q else -q - 1;
    assert Signed64(Wrap64(d)) == d + k * w;
    ModShift(target, k);
    WrapIsMod(target);
    WrapIsMod(base + Signed64(Wrap64(d)));
  }

  lemma {:induction false} Signed32Inverse(v: int)
    requires FitsSigned32(v)
    ensures Signed32(Wrap32(v)) == v
  {
  }

  lemma {:induction false} ProgramReads(r: CfiRange)
    requires Compiles(r)
    ensures ReadProgram(ProgramBytes(r) + Zeros(PaddingOf(r)))
            == Some(ProgramOf(r))
  {
    PaddingIsNops(PaddingOf(r));
    var p := FunctionProgram(r.inherited, r.operations).value;
    EmittedAllEncodable(r.inherited, INITIAL);
    OwnEncodable(r.operations, 0, NextAll(r.inherited, INITIAL));
    assert AllEncodable(p);
    ProgramRoundTrip(p, Zeros(PaddingOf(r)), Nops(PaddingOf(r)));
  }

  /** Four fields in front of a body read back at their places. */
  lemma {:induction false} WordsRead(s: seq<Byte>, p: nat, a: U32, b: U32, c: U32, d: U32, rest: seq<Byte>)
    requires p <= |s| && s[p..] == U32Bytes(a) + (U32Bytes(b) + (U32Bytes(c) + (U32Bytes(d) + [0]))) + rest
    ensures p + 17 + |rest| == |s|
    ensures U32At(s, p) == a && U32At(s, p + 4) == b && U32At(s, p + 8) == c && U32At(s, p + 12) == d
    ensures s[p + 16..] == [0] + rest
  {
    var t := s[p..];
    assert |t| == 17 + |rest|;
    assert s[p..p + 4] == t[0..4] == U32Bytes(a);
    assert s[p + 4..p + 8] == t[4..8] == U32Bytes(b);
    assert s[p + 8..p + 12] == t[8..12] == U32Bytes(c);
    assert s[p + 12..p + 16] == t[12..16] == U32Bytes(d);
    assert s[p + 16..] == t[16..] == [0] + rest;
    U32RoundTrip(s, p, a);
    U32RoundTrip(s, p + 4, b);
    U32RoundTrip(s, p + 8, c);
    U32RoundTrip(s, p + 12, d);
  }

  lemma {:induction false} FdeShape(p: nat, ehVa: U64, textVa: U64, r: CfiRange, rest: seq<Byte>)
    requires FdeBytes(p, ehVa, textVa, r).Some?
    ensures FdeBytes(p, ehVa, textVa, r).value + rest ==
            U32Bytes(Wrap32(FdeSize(r) - 4)) + (U32Bytes(Wrap32(p + 4))
                                                + (U32Bytes(Wrap32(PcDelta(p, ehVa, textVa, r.begin)))
              + (U32Bytes(Wrap32(r.end - r.begin)) + [0]))) + (ProgramBytes(r) + Zeros(PaddingOf(r)) + rest)
  {
    Regroup(U32Bytes(Wrap32(FdeSize(r) - 4)), FdeFields(p, ehVa, textVa, r), ProgramBytes(r), Zeros(PaddingOf(r)),
            rest);
  }

  lemma {:induction false} Regroup(l: seq<Byte>, f: seq<Byte>, b: seq<Byte>, z: seq<Byte>, rest: seq<Byte>)
    ensures l + (f + b + z) + rest == l + f + (b + z + rest)
  {
    Assoc(l, f + b + z, rest);
    Assoc(f + b, z, rest);
    Assoc(f, b, z + rest);
    Assoc(l, f, b + (z + rest));
    Assoc(b, z, rest);
  }

  lemma {:induction false} NoAugmentation(body: seq<Byte>)
    ensures ReadFdeProgram([0] + body) == ReadProgram(body)
  {
    assert ([0] + body)[1..] == body && body[0..] == body;
  }

  /** The bytes of one FDE stand at p, with more of the section after them. */
  predicate Stands(s: seq<Byte>, p: nat, e: seq<Byte>) {
    p + |e| + 4 <= |s| && s[p..p + |e|] == e
  }

  lemma {:induction false} FdeFieldsStand(s: seq<Byte>, p: nat, ehVa: U64, textVa: U64, r: CfiRange)
    requires FdeBytes(p, ehVa, textVa, r).Some? && Stands(s, p, FdeBytes(p, ehVa, textVa, r).value)
    ensures U32At(s, p) == Wrap32(FdeSize(r) - 4) && U32At(s, p + 4) == Wrap32(p + 4)
    ensures U32At(s, p + 8) == Wrap32(PcDelta(p, ehVa, textVa, r.begin)) && U32At(s, p + 12) == Wrap32(r.end - r.begin)
    ensures s[p + 16..p + FdeSize(r)] == [0] + (ProgramBytes(r) + Zeros(PaddingOf(r)))
  {
    var body, rest := ProgramBytes(r) + Zeros(PaddingOf(r)), s[p + FdeSize(r)..];
    var e := FdeBytes(p, ehVa, textVa, r).value;
    assert s[p..] == e + rest by { assert s[p..] == s[p..p + |e|] + s[p + |e|..]; }
    FdeShape(p, ehVa, textVa, r, rest);
    WordsRead(s, p, Wrap32(FdeSize(r) - 4), Wrap32(p + 4), Wrap32(PcDelta(p, ehVa, textVa, r.begin)),
              Wrap32(r.end - r.begin), body + rest);
    SliceOf(s, p, [0] + body, rest);
  }

  lemma {:induction false} FdeNumbersRead(s: seq<Byte>, p: nat, ehVa: U64, textVa: U64, r: CfiRange)
    requires FdeBytes(p, ehVa, textVa, r).Some? && |s| <= 0x1_0000_0000
    requires Stands(s, p, FdeBytes(p, ehVa, textVa, r).value)
    ensures U32At(s, p) == FdeSize(r) - 4 && U32At(s, p + 4) == p + 4 && U32At(s, p + 12) == Wrap32(r.end - r.begin)
    ensures PcTarget(ehVa, p, U32At(s, p + 8)) == Wrap64(textVa + r.begin)
  {
    FdeFieldsStand(s, p, ehVa, textVa, r);
    PcBeginReads(p, ehVa, textVa, r.begin);
  }

  lemma {:induction false} FdeProgramReads(s: seq<Byte>, p: nat, ehVa: U64, textVa: U64, r: CfiRange)
    requires FdeBytes(p, ehVa, textVa, r).Some?
    requires Stands(s, p, FdeBytes(p, ehVa, textVa, r).value)
    ensures ReadFdeProgram(s[p + 16..p + FdeSize(r)]) == Some(ProgramOf(r))
  {
    FdeFieldsStand(s, p, ehVa, textVa, r);
    NoAugmentation(ProgramBytes(r) + Zeros(PaddingOf(r)));
    ProgramReads(r);
  }

  /** The fields of the FDE of r, n bytes long, are found at p. */
  predicate FieldsStand(s: seq<Byte>, p: nat, ehVa: U64, textVa: U64, r: CfiRange, n: nat) {
    && n >= 17 && p + n <= |s|
    && U32At(s, p) == n - 4 && U32At(s, p + 4) == p + 4 && U32At(s, p + 12) == Wrap32(r.end - r.begin)
    && PcTarget(ehVa, p, U32At(s, p + 8)) == Wrap64(textVa + r.begin)
    && ReadFdeProgram(s[p + 16..p + n]) == Some(ProgramOf(r))
  }

  lemma {:induction false} FdeFieldsFound(s: seq<Byte>, p: nat, ehVa: U64, textVa: U64, r: CfiRange)
    requires FdeBytes(p, ehVa, textVa, r).Some? && |s| <= 0x1_0000_0000
    requires Stands(s, p, FdeBytes(p, ehVa, textVa, r).value)
    ensures FieldsStand(s, p, ehVa, textVa, r, FdeSize(r))
  {
    FdeNumbersRead(s, p, ehVa, textVa, r);
    FdeProgramReads(s, p, ehVa, textVa, r);
  }

  lemma {:induction false} FieldsRead(s: seq<Byte>, p: nat, ehVa: U64, textVa: U64, r: CfiRange, n: nat)
    requires FieldsStand(s, p, ehVa, textVa, r, n)
    ensures U32At(s, p) == n - 4
    ensures ReadFde(s, ehVa, p) == Some(ExpectedFde(textVa, p, r))
  {
    ReadFdeAt(s, ehVa, p, n, Wrap64(textVa + r.begin), ProgramOf(r));
  }

  /** One FDE reads back where it was written, with the CIE at the section start. */
  lemma {:induction false} FdeReads(s: seq<Byte>, p: nat, ehVa: U64, textVa: U64, r: CfiRange)
    requires FdeBytes(p, ehVa, textVa, r).Some? && |s| <= 0x1_0000_0000
    requires Stands(s, p, FdeBytes(p, ehVa, textVa, r).value)
    ensures U32At(s, p) == FdeSize(r) - 4
    ensures ReadFde(s, ehVa, p) == Some(ExpectedFde(textVa, p, r))
  {
    FdeFieldsFound(s, p, ehVa, textVa, r);
    FieldsRead(s, p, ehVa, textVa, r, FdeSize(r));
  }

  /** The pc-begin field leads to the code address. */
  lemma {:induction false} PcBeginReads(p: nat, ehVa: U64, textVa: U64, begin: U32)
    requires FitsSigned32(PcDelta(p, ehVa, textVa, begin))
    ensures PcTarget(ehVa, p, Wrap32(PcDelta(p, ehVa, textVa, begin))) == Wrap64(textVa + begin)
  {
    WrapCancel(textVa + begin, ehVa + p + 8);
    Signed32Inverse(PcDelta(p, ehVa, textVa, begin));
  }

  lemma {:induction false} ReadFdeAt(s: seq<Byte>, va: U64, p: nat, n: nat, target: U64, program: Program)
    requires 17 <= n && p + n <= |s| && U32At(s, p) == n - 4
    requires PcTarget(va, p, U32At(s, p + 8)) == target
    requires ReadFdeProgram(s[p + 16..p + n]) == Some(program)
    ensures ReadFde(s, va, p) == Some(Fde(p, p + 4 - U32At(s, p + 4), target, U32At(s, p + 12), program))
  {
    assert s[p + 16..p + 4 + U32At(s, p)] == s[p + 16..p + n];
  }

  lemma {:induction false} SliceOf(s: seq<Byte>, p: nat, a: seq<Byte>, rest: seq<Byte>)
    requires p + 16 <= |s| && a != [] && s[p + 16..] == [a[0]] + (a[1..] + rest)
    ensures p + 16 + |a| <= |s| && s[p + 16..p + 16 + |a|] == a
  {
    assert s[p + 16..] == a + rest;
    assert s[p + 16..p + 16 + |a|] == s[p + 16..][..|a|];
  }

  /** Wherever in s the emitter's bytes stand, reading gives the expectation. */
  ghost predicate RoundTrips(s: seq<Byte>, emit: Emitter, size: CfiRange -> nat, read: FdeAt, want: Expectation) {
    forall p: nat, r: CfiRange :: emit(p, r).Some? && Stands(s, p, emit(p, r).value) ==>
      && |emit(p, r).value| == size(r) > 4
      && U32At(s, p) == size(r) - 4
      && read(p) == Some(want(p, r))
  }

  lemma {:induction false} TerminatorRead(s: seq<Byte>, read: FdeAt, p: nat)
    requires p <= |s| && s[p..] == Zeros(4)
    ensures ReadFdes(s, read, p) == Some([])
  {
    assert |s| == p + |s[p..]|;
    assert s[p..p + 4] == s[p..];
    ZeroWord();
    U32RoundTrip(s, p, 0);
  }

  lemma {:induction false} ZeroWord()
    ensures U32Bytes(0) == Zeros(4)
  {
  }

  lemma {:induction false} RecordRead(s: seq<Byte>, read: FdeAt, p: nat, n: nat, first: Fde, more: seq<Fde>)
    requires n > 4 && p + n <= |s| && U32At(s, p) == n - 4
    requires read(p) == Some(first) && ReadFdes(s, read, p + n) == Some(more)
    ensures ReadFdes(s, read, p) == Some([first] + more)
  {
  }

  /** s carries the records of these ranges from p on, then the terminator. */
  ghost predicate Carries(s: seq<Byte>, p: nat, emit: Emitter, ranges: seq<CfiRange>) {
    p <= |s| && FdeTail(emit, p, ranges).Some? && s[p..] == FdeTail(emit, p, ranges).value + Zeros(4)
  }

  ghost predicate SizesAre(sizes: seq<nat>, size: CfiRange -> nat, ranges: seq<CfiRange>) {
    |sizes| == |ranges| && forall i :: 0 <= i < |ranges| ==> sizes[i] == size(ranges[i])
  }

  /** The first record reads as expected, and the others stand behind it. */
  lemma {:induction false} FirstReads(s: seq<Byte>, p: nat, emit: Emitter, size: CfiRange -> nat, read: FdeAt,
                                      want: Expectation, ranges: seq<CfiRange>)
    requires RoundTrips(s, emit, size, read, want) && Carries(s, p, emit, ranges) && ranges != []
    ensures size(ranges[0]) > 4 && p + size(ranges[0]) <= |s| && U32At(s, p) == size(ranges[0]) - 4
    ensures read(p) == Some(want(p, ranges[0])) && Carries(s, p + size(ranges[0]), emit, ranges[1..])
  {
    var first := emit(p, ranges[0]).value;
    var more := FdeTail(emit, p + |first|, ranges[1..]).value;
    Assoc(first, more, Zeros(4));
    TailSlices(s, p, first, more + Zeros(4));
    assert Stands(s, p, first);
  }

  /** Reading from any point between records yields exactly the remaining ranges, and stops at the terminator. */
  lemma {:induction false} FdesRead(s: seq<Byte>, p: nat, emit: Emitter, size: CfiRange -> nat, read: FdeAt,
                                    want: Expectation, ranges: seq<CfiRange>, sizes: seq<nat>)
    requires RoundTrips(s, emit, size, read, want) && Carries(s, p, emit, ranges) && SizesAre(sizes, size, ranges)
    ensures ReadFdes(s, read, p) == Some(ExpectedFdes(want, Starts(p, sizes), ranges))
    decreases |ranges|
  {
    if ranges == [] {
      EmptyLeft(Zeros(4), []);
      TerminatorRead(s, read, p);
    } else {
      var q := p + size(ranges[0]);
      FirstReads(s, p, emit, size, read, want, ranges);
      FdesRead(s, q, emit, size, read, want, ranges[1..], sizes[1..]);
      FdesStep(s, p, read, want, ranges, sizes);
    }
  }

  lemma {:induction false} FdesStep(s: seq<Byte>, p: nat, read: FdeAt, want: Expectation, ranges: seq<CfiRange>,
                                    sizes: seq<nat>)
    requires |sizes| == |ranges| > 0 && sizes[0] > 4 && p + sizes[0] <= |s| && U32At(s, p) == sizes[0] - 4
    requires read(p) == Some(want(p, ranges[0]))
    requires ReadFdes(s, read, p + sizes[0]) == Some(ExpectedFdes(want, Starts(p + sizes[0], sizes[1..]), ranges[1..]))
    ensures ReadFdes(s, read, p) == Some(ExpectedFdes(want, Starts(p, sizes), ranges))
  {
    RecordRead(s, read, p, sizes[0], want(p, ranges[0]),
               ExpectedFdes(want, Starts(p + sizes[0], sizes[1..]), ranges[1..]));
    ExpectedStep(want, p, sizes, ranges);
  }

  lemma {:induction false} ExpectedStep(want: Expectation, p: nat, sizes: seq<nat>, ranges: seq<CfiRange>)
    requires |sizes| == |ranges| > 0
    ensures ExpectedFdes(want, Starts(p, sizes), ranges)
            == [want(p, ranges[0])] + ExpectedFdes(want, Starts(p + sizes[0], sizes[1..]), ranges[1..])
  {
    assert Starts(p, sizes)[1..] == Starts(p + sizes[0], sizes[1..]);
  }

  /** Each record can also be read by itself at its own start. */
  lemma {:induction false} EachRead(s: seq<Byte>, p: nat, emit: Emitter, size: CfiRange -> nat, read: FdeAt,
                                    want: Expectation, ranges: seq<CfiRange>, sizes: seq<nat>, i: nat)
    requires RoundTrips(s, emit, size, read, want) && Carries(s, p, emit, ranges) && SizesAre(sizes, size, ranges)
    requires i < |ranges|
    ensures Starts(p, sizes)[i] < |s|
    ensures read(Starts(p, sizes)[i]) == Some(want(Starts(p, sizes)[i], ranges[i]))
    decreases |ranges|
  {
    FirstReads(s, p, emit, size, read, want, ranges);
    if i > 0 {
      EachRead(s, p + size(ranges[0]), emit, size, read, want, ranges[1..], sizes[1..], i - 1);
    }
  }

  lemma {:induction false} TailSlices(s: seq<Byte>, p: nat, first: seq<Byte>, rest: seq<Byte>)
    requires p <= |s| && s[p..] == first + rest
    ensures p + |first| + |rest| == |s| && s[p..p + |first|] == first && s[p + |first|..] == rest
  {
    assert s[p..p + |first|] == s[p..][..|first|];
    assert s[p + |first|..] == s[p..][|first|..];
  }

  /** The CIE the sidecar writes, as a consumer sees it. */
  const EXPECTED_CIE: Cie :=
    Cie(1, [0x7a, 0x52], 1, -8, 16, 0x1b, [DefCfa(7, 8), SavedAt(16, 1), Nop, Nop])

  lemma {:induction false} CieReads(rest: seq<Byte>)
    ensures ReadCie(CIE + rest) == Some(EXPECTED_CIE)
  {
    CieSize();
    var s := CIE + rest;
    CieSlices(s, rest);
    U32RoundTrip(s, 0, 20);
    U32RoundTrip(s, 4, 0);
    CieFieldsRead();
  }

  lemma {:induction false} CieSlices(s: seq<Byte>, rest: seq<Byte>)
    requires s == CIE + rest
    ensures |s| >= 24 && s[0..4] == U32Bytes(20) && s[4..8] == U32Bytes(0) && s[8] == 1
    ensures s[9..12] == [0x7a, 0x52, 0] && s[9..11] == [0x7a, 0x52] && s[12..24] == CIE_FIELDS
  {
    CieSize();
    assert U32Bytes(0) == Zeros(4);
    var v: seq<Byte> := [1, 0x7a, 0x52, 0];
    assert CIE[8..] == v + CIE_FIELDS;
    assert s[8..12] == v && s[12..24] == CIE_FIELDS;
    assert s[9..12] == s[8..12][1..4] && s[9..11] == s[8..12][1..3];
  }

  lemma {:induction false} CieFieldsRead()
    ensures ReadCieFields(1, [0x7a, 0x52], CIE_FIELDS) == Some(EXPECTED_CIE)
  {
    var f4 := [0x1b] + CIE_PROGRAM;
    var f3 := [1] + f4;
    var f2 := [16] + f3;
    var f1 := [0x78] + f2;
    SmallUleb(1, f1);
    SmallUleb(16, f3);
    SmallUleb(1, f4);
    assert f1[1..] == f2;
    assert f4[1..] == CIE_PROGRAM;
    CieProgramReads();
  }

  lemma {:induction false} SmallUleb(v: Byte, rest: seq<Byte>)
    requires v < 128
    ensures ReadUleb([v] + rest) == Some(Read(v, rest))
  {
    assert ([v] + rest)[1..] == rest;
  }

  lemma {:induction false} ReadStep(s: seq<Byte>, i: Instruction, rest: seq<Byte>, more: Program)
    requires s != [] && ReadInstruction(s) == Some(Read(i, rest)) && ReadProgram(rest) == Some(more)
    ensures ReadProgram(s) == Some([i] + more)
  {
  }

  lemma {:induction false} CieProgramReads()
    ensures ReadProgram(CIE_PROGRAM) == Some([DefCfa(7, 8), SavedAt(16, 1), Nop, Nop])
  {
    var s1 := [0x90, 1] + Zeros(2);
    AfterCfaReads(s1);
    DefCfaReads(s1);
    assert CIE_PROGRAM == [0x0c, 7, 8] + s1;
    ReadStep(CIE_PROGRAM, DefCfa(7, 8), s1, [SavedAt(16, 1), Nop, Nop]);
    assert [DefCfa(7, 8)] + [SavedAt(16, 1), Nop, Nop] == [DefCfa(7, 8), SavedAt(16, 1), Nop, Nop];
  }

  lemma {:induction false} DefCfaReads(rest: seq<Byte>)
    ensures ReadInstruction([0x0c, 7, 8] + rest) == Some(Read(DefCfa(7, 8), rest))
  {
    InstructionRoundTrip(DefCfa(7, 8), rest);
    assert Encode(DefCfa(7, 8)) == [0x0c, 7, 8];
  }

  lemma {:induction false} AfterCfaReads(s: seq<Byte>)
    requires s == [0x90, 1] + Zeros(2)
    ensures ReadProgram(s) == Some([SavedAt(16, 1), Nop, Nop])
  {
    PaddingIsNops(2);
    ReturnColumnReads(s);
    ReadStep(s, SavedAt(16, 1), Zeros(2), Nops(2));
    assert [SavedAt(16, 1)] + Nops(2) == [SavedAt(16, 1), Nop, Nop];
  }

  lemma {:induction false} ReturnColumnReads(s: seq<Byte>)
    requires s == [0x90, 1] + Zeros(2)
    ensures ReadInstruction(s) == Some(Read(SavedAt(16, 1), Zeros(2)))
  {
    SmallUleb(1, Zeros(2));
    assert s[1..] == [1] + Zeros(2);
    assert s[0] == 0x90;
    assert ReadInstruction(s) == ReadOffset(16, [1] + Zeros(2));
  }

  const FDE_SIZE: CfiRange -> nat := (r: CfiRange) => FdeSize(r)

  lemma {:induction false} EmitterRoundTrips(s: seq<Byte>, ehVa: U64, textVa: U64)
    requires |s| <= 0x1_0000_0000
    ensures RoundTrips(s, FdeEmitter(ehVa, textVa), FDE_SIZE, FdeReader(s, ehVa), Expected(textVa))
  {
    var emit := FdeEmitter(ehVa, textVa);
    forall p: nat, r: CfiRange | emit(p, r).Some? && Stands(s, p, emit(p, r).value)
      ensures |emit(p, r).value| == FDE_SIZE(r) > 4
      ensures U32At(s, p) == FDE_SIZE(r) - 4
      ensures FdeReader(s, ehVa)(p) == Some(Expected(textVa)(p, r))
    {
      FdeReads(s, p, ehVa, textVa, r);
    }
  }

  /**
   * The round trip: below 4 GiB (the reach of its 32-bit fields), a section reads as the one CIE followed by
   * exactly the given ranges in order, each with its start, CIE at 0, address, size and program up to padding.
   */
  lemma {:induction false} SectionReads(ehVa: U64, textVa: U64, ranges: seq<CfiRange>)
    requires EhFrameBytes(ehVa, textVa, ranges).Some? && |EhFrameBytes(ehVa, textVa, ranges).value| <= 0x1_0000_0000
    ensures var s := EhFrameBytes(ehVa, textVa, ranges).value;
            && ReadCie(s) == Some(EXPECTED_CIE)
            && U32At(s, 0) + 4 == CIE_SIZE
            && ReadFdes(s, FdeReader(s, ehVa), CIE_SIZE)
               == Some(ExpectedFdes(Expected(textVa), FdeStarts(ranges), ranges))
  {
    var tail := FdeTail(FdeEmitter(ehVa, textVa), CIE_SIZE, ranges).value;
    var s := CIE + tail + Zeros(4);
    CieSize();
    Assoc(CIE, tail, Zeros(4));
    CieReads(tail + Zeros(4));
    U32RoundTrip(s, 0, 20);
    CieSlices(s, tail + Zeros(4));
    TailSlices(s, 0, CIE, tail + Zeros(4));
    TailReads(s, CIE_SIZE, ehVa, textVa, ranges);
  }

  /** The same for the FDE of one range, found by its start. */
  lemma {:induction false} FdeReadsAlone(ehVa: U64, textVa: U64, ranges: seq<CfiRange>, i: nat)
    requires EhFrameBytes(ehVa, textVa, ranges).Some? && |EhFrameBytes(ehVa, textVa, ranges).value| <= 0x1_0000_0000
    requires i < |ranges|
    ensures var s, start := EhFrameBytes(ehVa, textVa, ranges).value, FdeStarts(ranges)[i];
            start < |s| && ReadFde(s, ehVa, start) == Some(ExpectedFde(textVa, start, ranges[i]))
  {
    var tail := FdeTail(FdeEmitter(ehVa, textVa), CIE_SIZE, ranges).value;
    var s := CIE + tail + Zeros(4);
    CieSize();
    Assoc(CIE, tail, Zeros(4));
    TailSlices(s, 0, CIE, tail + Zeros(4));
    EmitterRoundTrips(s, ehVa, textVa);
    EachRead(s, CIE_SIZE, FdeEmitter(ehVa, textVa), FDE_SIZE, FdeReader(s, ehVa), Expected(textVa), ranges,
             Sizes(ranges), i);
  }

  lemma {:induction false} TailReads(s: seq<Byte>, p: nat, ehVa: U64, textVa: U64, ranges: seq<CfiRange>)
    requires p <= |s| <= 0x1_0000_0000 && FdeTail(FdeEmitter(ehVa, textVa), p, ranges).Some?
    requires s[p..] == FdeTail(FdeEmitter(ehVa, textVa), p, ranges).value + Zeros(4)
    ensures ReadFdes(s, FdeReader(s, ehVa), p) == Some(ExpectedFdes(Expected(textVa), Starts(p, Sizes(ranges)), ranges))
  {
    EmitterRoundTrips(s, ehVa, textVa);
    FdesRead(s, p, FdeEmitter(ehVa, textVa), FDE_SIZE, FdeReader(s, ehVa), Expected(textVa), ranges, Sizes(ranges));
  }

  /** The CIE's instructions establish the row every FDE starts from, with the alignment every rule is scaled by. */
  lemma {:induction false} CieEstablishesRow(row: Row)
    requires row.rules == map[]
    ensures EXPECTED_CIE.dataAlign == DATA_ALIGN
    ensures ApplyAll(EXPECTED_CIE.initial, row) == CIE_ROW
  {
    var r1 := Apply(row, DefCfa(7, 8), DATA_ALIGN);
    var r2 := Apply(r1, SavedAt(16, 1), DATA_ALIGN);
    assert r2.rules == map[16 := -8];
    assert EXPECTED_CIE.initial[1..] == [SavedAt(16, 1), Nop, Nop] && [SavedAt(16, 1), Nop, Nop][1..] == [Nop, Nop];
    assert [Nop, Nop][1..] == [Nop] && [Nop][1..] == [];
    assert ApplyAll([Nop], r2) == r2;
    assert ApplyAll([Nop, Nop], r2) == r2;
    assert ApplyAll([SavedAt(16, 1), Nop, Nop], r1) == r2;
  }
}
