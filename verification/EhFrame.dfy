/** The .eh_frame section: the emitter of src/pe_sidecar.cpp:672-727 and an independent reader. */
module EhFrame {
  import opened Bytes
  import opened Leb128
  import opened Wrappers
  import opened Prolog
  import opened CallFrame
  import opened Compile
  import opened UnwindMeaning
  import opened CfiRanges

  /** signed_32: the value, if it fits a signed 32-bit field. */
  predicate FitsSigned32(v: int) { -0x8000_0000 <= v < 0x8000_0000 }

  /** The distance from the pc-begin field of an FDE at position p to the code it describes. */
  function PcDelta(p: nat, ehVa: U64, textVa: U64, begin: U32): int {
    Signed64(Wrap64(textVa + begin - (ehVa + p + 8)))
  }

  // ----- bytes of one FDE

  lemma {:induction false} OwnEncodable(own: seq<Operation>, position: nat, st: CfaState)
    ensures OwnProgram(own, position, st).Some? ==> AllEncodable(OwnProgram(own, position, st).value)
    decreases |own|
  {
    if own != [] {
      EmittedEncodable(own[0], st);
      OwnEncodable(own[1..], own[0].codeOffset, Next(own[0], st));
    }
  }

  lemma {:induction false} EmittedAllEncodable(ops: seq<Operation>, st: CfaState)
    ensures EmittedAll(ops, st).Some? ==> AllEncodable(EmittedAll(ops, st).value)
    decreases |ops|
  {
    if ops != [] {
      EmittedEncodable(ops[0], st);
      EmittedAllEncodable(ops[1..], Next(ops[0], st));
    }
  }

  /** The instruction bytes of a range. */
  function ProgramBytes(r: CfiRange): seq<Byte> {
    OwnEncodable(r.operations, 0, NextAll(r.inherited, INITIAL));
    EmittedAllEncodable(r.inherited, INITIAL);
    if Compiles(r) then EncodeAll(FunctionProgram(r.inherited, r.operations).value) else []
  }

  predicate Compiles(r: CfiRange) { FunctionProgram(r.inherited, r.operations).Some? }

  function PaddingOf(r: CfiRange): nat {
    PadTo8(17 + |ProgramBytes(r)|)
  }

  /** Length of an FDE in bytes, a multiple of eight. */
  function FdeSize(r: CfiRange): (n: nat)
    ensures n % 8 == 0 && n >= 24
  {
    17 + |ProgramBytes(r)| + PaddingOf(r)
  }

  /** CIE pointer, pc-relative begin, size and (empty) augmentation data. */
  function FdeFields(p: nat, ehVa: U64, textVa: U64, r: CfiRange): (f: seq<Byte>)
    ensures |f| == 13
  {
    U32Bytes(Wrap32(p + 4)) + (U32Bytes(Wrap32(PcDelta(p, ehVa, textVa, r.begin)))
                               + (U32Bytes(Wrap32(r.end - r.begin)) + [0]))
  }

  /** Everything after the length field. */
  function FdeBody(p: nat, ehVa: U64, textVa: U64, r: CfiRange): seq<Byte> {
    FdeFields(p, ehVa, textVa, r) + ProgramBytes(r) + Zeros(PaddingOf(r))
  }

  function FdeBytes(p: nat, ehVa: U64, textVa: U64, r: CfiRange): (b: Option<seq<Byte>>)
    ensures b.Some? ==> Compiles(r) && |b.value| == FdeSize(r)
  {
    if !Compiles(r) || !FitsSigned32(PcDelta(p, ehVa, textVa, r.begin)) then None
    else Some(U32Bytes(Wrap32(FdeSize(r) - 4)) + FdeBody(p, ehVa, textVa, r))
  }

  /** What writes the FDE of a range at a position. */
  type Emitter = (nat, CfiRange) -> Option<seq<Byte>>

  function FdeEmitter(ehVa: U64, textVa: U64): Emitter { (p: nat, r: CfiRange) => FdeBytes(p, ehVa, textVa, r) }

  /** The FDEs of all ranges, the first of them at position p. */
  function FdeTail(emit: Emitter, p: nat, ranges: seq<CfiRange>): Option<seq<Byte>>
    decreases |ranges|
  {
    if ranges == [] then Some([])
    else
      var first :- emit(p, ranges[0]);
      var more :- FdeTail(emit, p + |first|, ranges[1..]);
      Some(first + more)
  }

  predicate AllCompile(ranges: seq<CfiRange>) {
    forall i :: 0 <= i < |ranges| ==> Compiles(ranges[i])
  }

  function Sizes(ranges: seq<CfiRange>): seq<nat> {
    seq(|ranges|, i requires 0 <= i < |ranges| => FdeSize(ranges[i]))
  }

  /** Where records of these sizes start when laid end to end from p. */
  function Starts(p: nat, sizes: seq<nat>): (s: seq<nat>)
    ensures |s| == |sizes|
    decreases |sizes|
  {
    if sizes == [] then [] else [p] + Starts(p + sizes[0], sizes[1..])
  }

  /** Where each FDE starts. */
  function FdeStarts(ranges: seq<CfiRange>): seq<nat> { Starts(CIE_SIZE, Sizes(ranges)) }

  /** Version 1, "zR", code alignment 1, data alignment -8, return column 16, pc-relative sdata4; CFA = RSP + 8. */
  const CIE: seq<Byte> := U32Bytes(20) + (Zeros(4) + ([1, 0x7a, 0x52, 0] + CIE_FIELDS))
  const CIE_FIELDS: seq<Byte> := [1] + ([0x78] + ([16] + ([1] + ([0x1b] + CIE_PROGRAM))))
  const CIE_PROGRAM: seq<Byte> := [0x0c, 7, 8] + ([0x90, 1] + Zeros(2))
  const CIE_SIZE: nat := 24

  lemma {:induction false} CieSize()
    ensures |CIE| == CIE_SIZE && |CIE_FIELDS| == 12 && |CIE_PROGRAM| == 7
  {
  }

  function EhFrameBytes(ehVa: U64, textVa: U64, ranges: seq<CfiRange>): Option<seq<Byte>> {
    var tail :- FdeTail(FdeEmitter(ehVa, textVa), CIE_SIZE, ranges);
    Some(CIE + tail + Zeros(4))
  }

  // ----- the emitter

  method AppendAdvance(out: ByteVector, delta: U32)
    modifies out
    ensures out.bytes == old(out.bytes) + AdvanceBytes(delta)
  {
    if delta == 0 {
      return;
    }
    if delta < 64 {
      out.PushBack(0x40 + delta);
    } else if delta <= 0xff {
      out.PushBack(0x02);
      out.PushBack(delta);
    } else if delta <= 0xffff {
      out.PushBack(0x03);
      out.PushBack(delta % 0x100);
      out.PushBack(delta / 0x100);
    } else {
      out.PushBack(0x04);
      out.AppendU32(delta);
    }
  }

  /** One step of the own operations, in bytes, once the location is reached. */
  lemma {:induction false} OwnStep(own: seq<Operation>, st: CfaState)
    requires own != []
    ensures var offset := own[0].codeOffset;
            && (OwnProgram(own, offset, st).Some? <==>
                Emitted(own[0], st).Some? && OwnProgram(own[1..], offset, Next(own[0], st)).Some?)
            && (OwnProgram(own, offset, st).Some? ==>
                  && AllEncodable(Emitted(own[0], st).value)
                  && OwnBytes(own, offset, st) == EncodeAll(Emitted(own[0], st).value)
                     + OwnBytes(own[1..], offset, Next(own[0], st)))
  {
    var offset := own[0].codeOffset;
    if OwnProgram(own, offset, st).Some? {
      var first, more := Emitted(own[0], st).value, OwnProgram(own[1..], offset, Next(own[0], st)).value;
      OwnEncodable(own[1..], offset, Next(own[0], st));
      EmittedEncodable(own[0], st);
      EncodeAllAppend(first, more);
      EmptyLeft(first, more);
    }
  }

  /** Reaching that location. */
  lemma {:induction false} OwnReach(own: seq<Operation>, position: nat, st: CfaState)
    requires own != []
    ensures var offset := own[0].codeOffset;
            && (OwnProgram(own, position, st).Some? <==> OwnProgram(own, offset, st).Some?)
            && (OwnProgram(own, position, st).Some? ==>
                  OwnBytes(own, position, st) == AdvanceBytes(Wrap32(offset - position)) + OwnBytes(own, offset, st))
  {
    var offset := own[0].codeOffset;
    if OwnProgram(own, position, st).Some? {
      var delta := Wrap32(offset - position);
      var first, more := Emitted(own[0], st).value, OwnProgram(own[1..], offset, Next(own[0], st)).value;
      EmptyLeft(first, more);
      OwnEncodable(own, offset, st);
      Assoc(Advance(delta), first, more);
      AdvanceEncoded(delta);
      EncodeAllAppend(Advance(delta), first + more);
    }
  }

  lemma {:induction false} AdvanceEncoded(delta: U32)
    ensures AllEncodable(Advance(delta)) && EncodeAll(Advance(delta)) == AdvanceBytes(delta)
  {
    if delta != 0 {
      EncodeOne(AdvanceLoc(delta));
    }
  }

  function OwnBytes(own: seq<Operation>, position: nat, st: CfaState): seq<Byte> {
    if OwnProgram(own, position, st).None? then []
    else
      OwnEncodable(own, position, st);
      EncodeAll(OwnProgram(own, position, st).value)
  }

  /** What is still to be written completes what has been. */
  predicate OwnProgress(written: seq<Byte>, own: seq<Operation>, position: nat, st: CfaState, goal: Option<seq<Byte>>) {
    && (goal.Some? <==> OwnProgram(own, position, st).Some?)
    && (goal.Some? ==> written + OwnBytes(own, position, st) == goal.value)
  }

  method EmitGroup(out: ByteVector, own: seq<Operation>, index0: nat, st0: CfaState, ghost goal: Option<seq<Byte>>)
    returns (ok: bool, index: nat, st: CfaState)
    requires index0 < |own|
    requires OwnProgress(out.bytes, own[index0..], own[index0].codeOffset, st0, goal)
    modifies out
    ensures !ok ==> goal.None?
    ensures ok ==> index0 < index <= |own| && OwnProgress(out.bytes, own[index..], own[index0].codeOffset, st, goal)
  {
    index, st, ok := index0, st0, true;
    var codeOffset := own[index0].codeOffset;
    while index < |own| && own[index].codeOffset == codeOffset
      invariant index0 <= index <= |own| && (index == index0 ==> own[index].codeOffset == codeOffset)
      invariant OwnProgress(out.bytes, own[index..], codeOffset, st, goal)
      decreases |own| - index
    {
      ghost var before, was := out.bytes, st;
      assert own[index..][1..] == own[index + 1..];
      ok, st := ApplyOperation(out, own[index], st);
      OwnAdvanced(before, out.bytes, own[index..], was, ok, goal);
      if !ok {
        return;
      }
      index := index + 1;
    }
  }

  lemma {:induction false} OwnAdvanced(before: seq<Byte>, written: seq<Byte>, own: seq<Operation>, st: CfaState,
                                       ok: bool, goal: Option<seq<Byte>>)
    requires own != [] && OwnProgress(before, own, own[0].codeOffset, st, goal)
    requires ok == Emitted(own[0], st).Some?
    requires ok ==> AllEncodable(Emitted(own[0], st).value) && written == before + EncodeAll(Emitted(own[0], st).value)
    ensures if ok then OwnProgress(written, own[1..], own[0].codeOffset, Next(own[0], st), goal) else goal.None?
  {
    OwnStep(own, st);
    if ok {
      Assoc(before, EncodeAll(Emitted(own[0], st).value), OwnBytes(own[1..], own[0].codeOffset, Next(own[0], st)));
    }
  }

  /** Advances to the next group and emits it. */
  method EmitNextGroup(out: ByteVector, own: seq<Operation>, index0: nat, position: U32, st0: CfaState,
                       ghost goal: Option<seq<Byte>>)
    returns (ok: bool, index: nat, st: CfaState)
    requires index0 < |own| && OwnProgress(out.bytes, own[index0..], position, st0, goal)
    modifies out
    ensures !ok ==> goal.None?
    ensures ok ==> index0 < index <= |own| && OwnProgress(out.bytes, own[index..], own[index0].codeOffset, st, goal)
  {
    var codeOffset := own[index0].codeOffset;
    ghost var rest := own[index0..];
    OwnReach(rest, position, st0);
    AppendAdvance(out, Wrap32(codeOffset - position));
    Assoc(old(out.bytes), AdvanceBytes(Wrap32(codeOffset - position)), OwnBytes(rest, codeOffset, st0));
    ok, index, st := EmitGroup(out, own, index0, st0, goal);
  }

  /** The own operations, advancing to each group of equal code offsets. */
  method EmitOwn(out: ByteVector, own: seq<Operation>, st0: CfaState) returns (ok: bool)
    modifies out
    ensures ok <==> OwnProgram(own, 0, st0).Some?
    ensures ok ==> out.bytes == old(out.bytes) + OwnBytes(own, 0, st0)
  {
    ghost var goal := if OwnProgram(own, 0, st0).Some? then Some(out.bytes + OwnBytes(own, 0, st0)) else None;
    var position: U32 := 0;
    var index, st := 0, st0;
    assert own[0..] == own;
    while index < |own|
      invariant 0 <= index <= |own|
      invariant OwnProgress(out.bytes, own[index..], position, st, goal)
    {
      var codeOffset := own[index].codeOffset;
      ok, index, st := EmitNextGroup(out, own, index, position, st, goal);
      if !ok {
        return;
      }
      position := codeOffset;
    }
    assert out.bytes + [] == out.bytes;
    ok := true;
  }

  function InheritedBytes(ops: seq<Operation>, st: CfaState): seq<Byte> {
    if EmittedAll(ops, st).None? then []
    else
      EmittedAllEncodable(ops, st);
      EncodeAll(EmittedAll(ops, st).value)
  }

  lemma {:induction false} InheritedStep(ops: seq<Operation>, st: CfaState)
    requires ops != []
    ensures EmittedAll(ops, st).Some? <==> Emitted(ops[0], st).Some? && EmittedAll(ops[1..], Next(ops[0], st)).Some?
    ensures EmittedAll(ops, st).Some? ==>
              && AllEncodable(Emitted(ops[0], st).value)
              && InheritedBytes(ops, st) == EncodeAll(Emitted(ops[0], st).value)
                 + InheritedBytes(ops[1..], Next(ops[0], st))
  {
    if EmittedAll(ops, st).Some? {
      EmittedEncodable(ops[0], st);
      EmittedAllEncodable(ops[1..], Next(ops[0], st));
      EncodeAllAppend(Emitted(ops[0], st).value, EmittedAll(ops[1..], Next(ops[0], st)).value);
    }
  }

  predicate InheritedProgress(written: seq<Byte>, ops: seq<Operation>, st: CfaState, goal: Option<seq<Byte>>,
                              last: CfaState)
  {
    && (goal.Some? <==> EmittedAll(ops, st).Some?)
    && (goal.Some? ==> written + InheritedBytes(ops, st) == goal.value)
    && NextAll(ops, st) == last
  }

  method EmitInherited(out: ByteVector, ops: seq<Operation>) returns (ok: bool, st: CfaState)
    modifies out
    ensures ok <==> EmittedAll(ops, INITIAL).Some?
    ensures ok ==> st == NextAll(ops, INITIAL) && out.bytes == old(out.bytes) + InheritedBytes(ops, INITIAL)
  {
    ghost var goal := if EmittedAll(ops, INITIAL).Some? then Some(out.bytes + InheritedBytes(ops, INITIAL)) else None;
    st := INITIAL;
    var i := 0;
    assert ops[0..] == ops;
    while i < |ops|
      invariant 0 <= i <= |ops|
      invariant InheritedProgress(out.bytes, ops[i..], st, goal, NextAll(ops, INITIAL))
    {
      ghost var before, was := out.bytes, st;
      InheritedStep(ops[i..], st);
      assert ops[i..][1..] == ops[i + 1..];
      ok, st := ApplyOperation(out, ops[i], st);
      if !ok {
        return;
      }
      Assoc(before, EncodeAll(Emitted(ops[i], was).value), InheritedBytes(ops[i + 1..], st));
      i := i + 1;
    }
    assert out.bytes + [] == out.bytes;
    ok := true;
  }

  method EmitProgram(out: ByteVector, r: CfiRange) returns (ok: bool)
    modifies out
    ensures ok <==> Compiles(r)
    ensures ok ==> out.bytes == old(out.bytes) + ProgramBytes(r)
  {
    var st;
    ok, st := EmitInherited(out, r.inherited);
    if !ok {
      return;
    }
    ok := EmitOwn(out, r.operations, st);
    if ok {
      EmittedAllEncodable(r.inherited, INITIAL);
      OwnEncodable(r.operations, 0, st);
      EncodeAllAppend(EmittedAll(r.inherited, INITIAL).value, OwnProgram(r.operations, 0, st).value);
      Assoc(old(out.bytes), InheritedBytes(r.inherited, INITIAL), OwnBytes(r.operations, 0, st));
    }
  }

  lemma {:induction false} PadShift(p: nat, n: nat)
    requires p % 8 == 0
    ensures PadTo8(p + n) == PadTo8(n) && (p + n + PadTo8(n)) % 8 == 0
  {
    assert (p + n) % 8 == n % 8;
  }

  method EmitFdeHead(out: ByteVector, ehVa: U64, textVa: U64, r: CfiRange) returns (ok: bool)
    modifies out
    ensures ok <==> FitsSigned32(PcDelta(old(|out.bytes|), ehVa, textVa, r.begin))
    ensures ok && old(|out.bytes|) < 0x1_0000_0000 ==>
            out.bytes == old(out.bytes) + (Zeros(4) + FdeFields(old(|out.bytes|), ehVa, textVa, r))
    ensures ok ==> |out.bytes| == old(|out.bytes|) + 17 && old(out.bytes) == out.bytes[..old(|out.bytes|)]
  {
    var fdeStart: int := Wrap32(|out.bytes|);
    out.bytes := out.bytes + Zeros(4);
    out.AppendU32(Wrap32(fdeStart + 4));
    var target: int := textVa + r.begin;
    var delta: int := Signed64(Wrap64(target - (ehVa + |out.bytes|)));
    if !FitsSigned32(delta) {
      return false;
    }
    out.AppendU32(Wrap32(delta));
    out.AppendU32(Wrap32(r.end - r.begin));
    AppendUleb(out, 0);
    assert Uleb(0) == [0];
    ok := true;
  }

  method EmitFde(out: ByteVector, ehVa: U64, textVa: U64, r: CfiRange) returns (ok: bool)
    requires |out.bytes| % 8 == 0
    modifies out
    ensures ok <==> FdeBytes(old(|out.bytes|), ehVa, textVa, r).Some?
    ensures ok ==> |out.bytes| == old(|out.bytes|) + FdeSize(r) && |out.bytes| % 8 == 0
    ensures ok && old(|out.bytes|) < 0x1_0000_0000 ==>
              out.bytes == old(out.bytes) + FdeBytes(old(|out.bytes|), ehVa, textVa, r).value
  {
    ghost var p := |out.bytes|;
    var fdeStart := Wrap32(|out.bytes|);
    ok := EmitFdeHead(out, ehVa, textVa, r);
    if !ok {
      return;
    }
    ok := EmitProgram(out, r);
    if !ok {
      return;
    }
    PadShift(p, 17 + |ProgramBytes(r)|);
    out.Pad();
    ghost var unpatched := out.bytes;
    out.SetU32(fdeStart, Wrap32(|out.bytes| - fdeStart - 4));
    if p < 0x1_0000_0000 {
      Patched(old(out.bytes), p, ehVa, textVa, r, unpatched, out.bytes);
    }
  }

  lemma {:induction false} Patched(before: seq<Byte>, p: nat, ehVa: U64, textVa: U64, r: CfiRange,
                                   unpatched: seq<Byte>, out: seq<Byte>)
    requires FdeBytes(p, ehVa, textVa, r).Some? && |before| == p
    requires unpatched == before + (Zeros(4) + FdeFields(p, ehVa, textVa, r)) + ProgramBytes(r) + Zeros(PaddingOf(r))
    requires out == unpatched[..p] + U32Bytes(Wrap32(FdeSize(r) - 4)) + unpatched[p + 4..]
    ensures out == before + FdeBytes(p, ehVa, textVa, r).value
  {
    PatchWhole(before, Zeros(4), FdeFields(p, ehVa, textVa, r), ProgramBytes(r), Zeros(PaddingOf(r)),
               U32Bytes(Wrap32(FdeSize(r) - 4)),
               unpatched, out);
  }

  lemma {:induction false} PatchWhole(before: seq<Byte>, hole: seq<Byte>, fields: seq<Byte>, program: seq<Byte>,
                                      pad: seq<Byte>, length: seq<Byte>, unpatched: seq<Byte>, out: seq<Byte>)
    requires |hole| == 4 && unpatched == before + (hole + fields) + program + pad
    requires out == unpatched[..|before|] + length + unpatched[|before| + 4..]
    ensures out == before + (length + (fields + program + pad))
  {
    PatchShape(before, hole, fields, program, pad);
    Assoc(before, length, fields + program + pad);
  }

  lemma {:induction false} PatchShape(before: seq<Byte>, hole: seq<Byte>, fields: seq<Byte>, program: seq<Byte>,
                                      pad: seq<Byte>)
    ensures var s := before + (hole + fields) + program + pad;
            s[..|before|] == before && s[|before| + |hole|..] == fields + program + pad
  {
  }

  /** The CIE up to its instructions, with room for the length. */
  method EmitCieFields(out: ByteVector)
    requires out.bytes == []
    modifies out
    ensures out.bytes == Zeros(4) + (Zeros(4) + ([1, 0x7a, 0x52, 0] + [1, 0x78, 16, 1, 0x1b]))
  {
    out.bytes := Zeros(4);
    out.AppendU32(0);
    assert U32Bytes(0) == Zeros(4);
    out.PushBack(1);
    out.bytes := out.bytes + [0x7a, 0x52, 0];
    assert out.bytes == Zeros(4) + (Zeros(4) + [1, 0x7a, 0x52, 0]);
    EmitCieAlignments(out);
  }

  method EmitCieAlignments(out: ByteVector)
    modifies out
    ensures out.bytes == old(out.bytes) + [1, 0x78, 16, 1, 0x1b]
  {
    AppendUleb(out, 1);
    AppendSleb(out, -8);
    AppendUleb(out, 16);
    AppendUleb(out, 1);
    assert Uleb(1) == [1] && Sleb(-8) == [0x78] && Uleb(16) == [16];
    out.PushBack(0x1b);
  }

  method EmitCieInstructions(out: ByteVector)
    modifies out
    ensures out.bytes == old(out.bytes) + [0x0c, 7, 8, 0x90, 1]
  {
    out.PushBack(0x0c);
    AppendUleb(out, 7);
    AppendUleb(out, 8);
    assert Uleb(7) == [7] && Uleb(8) == [8];
    out.PushBack(0x90);
    AppendUleb(out, 1);
    assert Uleb(1) == [1];
  }

  method EmitCie(out: ByteVector)
    requires out.bytes == []
    modifies out
    ensures out.bytes == CIE
  {
    EmitCieFields(out);
    EmitCieInstructions(out);
    out.Pad();
    ghost var unpatched := out.bytes;
    CieUnpatched(unpatched);
    out.SetU32(0, |out.bytes| - 4);
  }

  lemma {:induction false} CieUnpatched(s: seq<Byte>)
    requires s == Zeros(4) + (Zeros(4) + ([1, 0x7a, 0x52, 0] + [1, 0x78, 16, 1, 0x1b])) + [0x0c, 7, 8, 0x90, 1]
             + Zeros(PadTo8(22))
    ensures |s| == 24 && s[..0] + U32Bytes(20) + s[4..] == CIE
  {
    var fields := Zeros(4) + ([1, 0x7a, 0x52, 0] + CIE_FIELDS);
    assert [1, 0x78, 16, 1, 0x1b] + ([0x0c, 7, 8, 0x90, 1] + Zeros(2)) == CIE_FIELDS;
    assert s[4..] == fields;
    assert s[..0] + U32Bytes(20) == U32Bytes(20);
  }

  /** What a growing section still has to receive. */
  predicate TailProgress(written: seq<Byte>, emit: Emitter, ranges: seq<CfiRange>, goal: Option<seq<Byte>>) {
    var tail := FdeTail(emit, |written|, ranges);
    && (goal.Some? <==> tail.Some?)
    && (goal.Some? ==> |written| + |tail.value| == |goal.value|)
    && (goal.Some? && |goal.value| <= 0x1_0000_0000 ==> written + tail.value == goal.value)
  }

  lemma {:induction false} TailStep(before: seq<Byte>, written: seq<Byte>, emit: Emitter, ranges: seq<CfiRange>,
                                    goal: Option<seq<Byte>>)
    requires TailProgress(before, emit, ranges, goal) && ranges != []
    requires var first := emit(|before|, ranges[0]);
             && first.Some? && |first.value| > 0
             && |written| == |before| + |first.value|
             && (|before| < 0x1_0000_0000 ==> written == before + first.value)
    ensures TailProgress(written, emit, ranges[1..], goal)
  {
    var first := emit(|before|, ranges[0]).value;
    var more := FdeTail(emit, |written|, ranges[1..]);
    if more.Some? {
      Assoc(before, first, more.value);
    }
  }

  function TotalSize(sizes: seq<nat>): nat {
    if sizes == [] then 0 else sizes[0] + TotalSize(sizes[1..])
  }

  lemma {:induction false} StartsAppend(p: nat, sizes: seq<nat>, n: nat)
    ensures Starts(p, sizes + [n]) == Starts(p, sizes) + [p + TotalSize(sizes)]
    ensures TotalSize(sizes + [n]) == TotalSize(sizes) + n
    decreases |sizes|
  {
    if sizes == [] {
      assert (sizes + [n])[1..] == [];
    } else {
      var q := p + sizes[0];
      assert (sizes + [n])[1..] == sizes[1..] + [n];
      StartsAppend(q, sizes[1..], n);
      Assoc([p], Starts(q, sizes[1..]), [q + TotalSize(sizes[1..])]);
    }
  }

  /** Offsets recorded for records of these sizes, the next one starting at p. */
  predicate OffsetsProgress(offsets: seq<U32>, p: nat, sizes: seq<nat>) {
    && |offsets| == |sizes|
    && (forall k :: 0 <= k < |sizes| ==> offsets[k] == Wrap32(Starts(CIE_SIZE, sizes)[k]))
    && p == CIE_SIZE + TotalSize(sizes)
  }

  lemma {:induction false} OffsetsStep(offsets: seq<U32>, p: nat, sizes: seq<nat>, n: nat)
    requires OffsetsProgress(offsets, p, sizes)
    ensures OffsetsProgress(offsets + [Wrap32(p)], p + n, sizes + [n])
  {
    StartsAppend(CIE_SIZE, sizes, n);
  }

  /** State of the FDE loop before range i. */
  predicate FdeProgress(written: seq<Byte>, offsets: seq<U32>, emit: Emitter, ranges: seq<CfiRange>, sizes: seq<nat>,
                        i: nat, goal: Option<seq<Byte>>)
  {
    && i <= |ranges| == |sizes|
    && TailProgress(written, emit, ranges[i..], goal)
    && OffsetsProgress(offsets, |written|, sizes[..i])
  }

  lemma {:induction false} FdeStep(before: seq<Byte>, written: seq<Byte>, offsets: seq<U32>, emit: Emitter,
                                   ranges: seq<CfiRange>, sizes: seq<nat>, i: nat, goal: Option<seq<Byte>>)
    requires FdeProgress(before, offsets, emit, ranges, sizes, i, goal) && i < |ranges|
    ensures emit(|before|, ranges[i]).None? ==> goal.None?
    ensures var first := emit(|before|, ranges[i]);
            && first.Some? && |first.value| == sizes[i] > 0 && |written| == |before| + |first.value|
            && (|before| < 0x1_0000_0000 ==> written == before + first.value)
            ==> FdeProgress(written, offsets + [Wrap32(|before|)], emit, ranges, sizes, i + 1, goal)
  {
    assert ranges[i..][1..] == ranges[i + 1..];
    var first := emit(|before|, ranges[i]);
    if && first.Some? && |first.value| == sizes[i] > 0 && |written| == |before| + |first.value|
       && (|before| < 0x1_0000_0000 ==> written == before + first.value)
    {
      TailStep(before, written, emit, ranges[i..], goal);
      assert sizes[..i + 1] == sizes[..i] + [sizes[i]];
      OffsetsStep(offsets, |before|, sizes[..i], sizes[i]);
    }
  }

  method EmitFdes(out: ByteVector, ehVa: U64, textVa: U64, ranges: seq<CfiRange>, ghost goal: Option<seq<Byte>>)
    returns (ok: bool, fdeOffsets: seq<U32>)
    requires |out.bytes| == CIE_SIZE && TailProgress(out.bytes, FdeEmitter(ehVa, textVa), ranges, goal)
    modifies out
    ensures ok <==> goal.Some?
    ensures ok ==> TailProgress(out.bytes, FdeEmitter(ehVa, textVa), [], goal)
    ensures ok ==> OffsetsProgress(fdeOffsets, |out.bytes|, Sizes(ranges)) && AllCompile(ranges)
  {
    ghost var emit, sizes := FdeEmitter(ehVa, textVa), Sizes(ranges);
    fdeOffsets := [];
    var i := 0;
    assert ranges[0..] == ranges && sizes[..0] == [];
    while i < |ranges|
      invariant 0 <= i <= |ranges| && |out.bytes| % 8 == 0
      invariant FdeProgress(out.bytes, fdeOffsets, emit, ranges, sizes, i, goal)
      invariant forall k :: 0 <= k < i ==> Compiles(ranges[k])
    {
      ghost var before, offsets := out.bytes, fdeOffsets;
      fdeOffsets := fdeOffsets + [Wrap32(|out.bytes|)];
      ok := EmitFde(out, ehVa, textVa, ranges[i]);
      FdeStep(before, out.bytes, offsets, emit, ranges, sizes, i, goal);
      if !ok {
        return;
      }
      i := i + 1;
    }
    assert ranges[i..] == [] && sizes[..i] == sizes;
    ok := true;
  }

  method BuildEhFrame(ehVa: U64, textVa: U64, ranges: seq<CfiRange>) returns (ok: bool, bytes: seq<Byte>,
                      fdeOffsets: seq<U32>)
    ensures ok <==> EhFrameBytes(ehVa, textVa, ranges).Some?
    ensures ok ==> |bytes| == |EhFrameBytes(ehVa, textVa, ranges).value|
    ensures ok && |bytes| <= 0x1_0000_0000 ==> bytes == EhFrameBytes(ehVa, textVa, ranges).value
    ensures ok ==> AllCompile(ranges) && |fdeOffsets| == |ranges|
    ensures ok ==> forall i :: 0 <= i < |ranges| ==> fdeOffsets[i] == Wrap32(FdeStarts(ranges)[i])
  {
    var out := new ByteVector();
    EmitCie(out);
    CieSize();
    ghost var tail := FdeTail(FdeEmitter(ehVa, textVa), CIE_SIZE, ranges);
    ghost var goal := if tail.Some? then Some(CIE + tail.value) else None;
    ok, fdeOffsets := EmitFdes(out, ehVa, textVa, ranges, goal);
    bytes := [];
    if ok {
      EmptyLeft(out.bytes, []);
      out.AppendU32(0);
      assert U32Bytes(0) == Zeros(4);
      bytes := out.bytes;
    }
  }
}
