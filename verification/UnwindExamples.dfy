/** Unwind codes the decoder accepts at which the exact conditions of UnwindMeaning and WindowsUnwinder decide. */
module UnwindExamples {
  import opened Bytes
  import opened Wrappers
  import opened Prolog
  import opened CallFrame
  import opened Compile
  import opened UnwindMeaning
  import opened WindowsUnwinder
  import opened UnwindCodes

  const PLAIN := Header(2, false, 0, 0)
  const WITH_FRAME := Header(2, false, 5, 0)

  const PUSH_1 := Operation(1, Push, 3, 0)
  const PUSH_2 := Operation(2, Push, 3, 0)
  const SAVE_1 := Operation(1, Save, 3, 0)
  const ALLOC_2 := Operation(2, Alloc, 8, 0)
  const MACHINE_1 := Operation(1, Machine, 40, 0)
  const MACHINE_2 := Operation(2, Machine, 40, 0)
  const FRAME_1 := Operation(1, Frame, 6, 0)

  // ----- decoding

  lemma {:induction false} DecodeStep(h: Header, s: seq<Byte>, op: Operation, n: nat, rest: seq<Byte>,
                                      more: seq<Operation>)
    requires |s| % 2 == 0 && |rest| % 2 == 0 && s != [] && DecodeOne(h, s) == Some(Decoded(op, n))
    requires s[2 * (n + 1)..] == rest && DecodeList(h, rest) == Some(more)
    ensures DecodeList(h, s) == Some([op] + more)
  {
  }

  lemma {:induction false} DecodeTwo(h: Header, s: seq<Byte>, rest: seq<Byte>, a: Operation, n: nat, b: Operation,
                                     k: nat)
    requires |s| % 2 == 0 && |rest| % 2 == 0 && s != [] && rest != []
    requires DecodeOne(h, s) == Some(Decoded(a, n)) && s[2 * (n + 1)..] == rest
    requires DecodeOne(h, rest) == Some(Decoded(b, k)) && |rest| == 2 * (k + 1) && a.codeOffset >= b.codeOffset
    ensures DecodeCodes(h, s) == Some([b, a])
  {
    DecodeStep(h, rest, b, k, [], []);
    DecodeStep(h, s, a, n, rest, [b] + []);
    assert [a] + ([b] + []) == [a, b];
    Reversed(a, b);
  }

  lemma {:induction false} Reversed(a: Operation, b: Operation)
    ensures Reverse([a, b]) == [b, a]
  {
  }

  lemma {:induction false} TwoPushesDecode()
    ensures DecodeCodes(PLAIN, [2, 0x30, 1, 0x30]) == Some(PUSHES)
  {
    var s: seq<Byte>, rest: seq<Byte> := [2, 0x30, 1, 0x30], [1, 0x30];
    assert s[2..] == rest;
    DecodeTwo(PLAIN, s, rest, PUSH_2, 0, PUSH_1, 0);
  }

  lemma {:induction false} EarlySaveDecodes()
    ensures DecodeCodes(PLAIN, [2, 2, 1, 0x34, 0, 0]) == Some([SAVE_1, ALLOC_2])
  {
    var s: seq<Byte>, rest: seq<Byte> := [2, 2, 1, 0x34, 0, 0], [1, 0x34, 0, 0];
    assert s[2..] == rest;
    assert U16At(rest, 2) == 0;
    DecodeTwo(PLAIN, s, rest, ALLOC_2, 0, SAVE_1, 1);
  }

  lemma {:induction false} LateMachineDecodes()
    ensures DecodeCodes(PLAIN, [2, 0x0A, 1, 0x30]) == Some([PUSH_1, MACHINE_2])
  {
    var s: seq<Byte>, rest: seq<Byte> := [2, 0x0A, 1, 0x30], [1, 0x30];
    assert s[2..] == rest;
    DecodeTwo(PLAIN, s, rest, MACHINE_2, 0, PUSH_1, 0);
  }

  lemma {:induction false} RedoneFrameDecodes()
    ensures DecodeCodes(WITH_FRAME, [1, 3, 1, 0x0A, 1, 3]) == Some(REDONE)
  {
    var s: seq<Byte>, t: seq<Byte>, u: seq<Byte> := [1, 3, 1, 0x0A, 1, 3], [1, 0x0A, 1, 3], [1, 3];
    assert s[2..] == t && t[2..] == u;
    assert DecodeOne(WITH_FRAME, u) == Some(Decoded(FRAME_1, 0));
    assert DecodeOne(WITH_FRAME, t) == Some(Decoded(MACHINE_1, 0));
    assert DecodeOne(WITH_FRAME, s) == Some(Decoded(FRAME_1, 0));
    DecodeThree(WITH_FRAME, s, t, u, FRAME_1, MACHINE_1, FRAME_1);
  }

  lemma {:induction false} DecodeThree(h: Header, s: seq<Byte>, t: seq<Byte>, u: seq<Byte>, a: Operation, b: Operation,
                                       c: Operation)
    requires |s| == 6 && s[2..] == t && t[2..] == u && a.codeOffset >= b.codeOffset >= c.codeOffset
    requires DecodeOne(h, s) == Some(Decoded(a, 0)) && DecodeOne(h, t) == Some(Decoded(b, 0))
             && DecodeOne(h, u) == Some(Decoded(c, 0))
    ensures DecodeCodes(h, s) == Some([c, b, a])
  {
    DecodeStep(h, u, c, 0, [], []);
    DecodeStep(h, t, b, 0, u, [c] + []);
    DecodeStep(h, s, a, 0, t, [b] + ([c] + []));
    assert [a] + ([b] + ([c] + [])) == [a, b, c];
    assert Reverse([a, b, c]) == [c, b, a];
  }

  const REDONE: seq<Operation> := [FRAME_1, MACHINE_1, FRAME_1]

  // ----- what they mean

  lemma {:induction false} TwoUses(a: Operation, b: Operation)
    ensures TotalUse([a, b]) == StackUse(a) + StackUse(b)
    ensures TotalUse([a, b][..0]) == 0 && TotalUse([a, b][..1]) == StackUse(a)
  {
    assert [a, b][1..] == [b] && [b][1..] == [] && [a, b][..0] == [] && [a, b][..1] == [a] && [a][1..] == [];
    assert TotalUse([b]) == StackUse(b) + TotalUse([]);
    assert TotalUse([a]) == StackUse(a) + TotalUse([]);
  }

  const PUSHES: seq<Operation> := [PUSH_1, PUSH_2]

  lemma {:induction false} PushesShape()
    ensures AllWellFormed(PUSHES) && MachineOnlyFirst(PUSHES) && OneHeader(PUSHES) && AtBase(PUSHES)
            && FitsStack(PUSHES)
    ensures FirstStore(PUSHES, 0) && LastStore(PUSHES, 1)
  {
    TwoUses(PUSH_1, PUSH_2);
  }

  /** Two PUSH_NONVOL of one register (see TwoPushesDecode): the unwinders take it from different slots. */
  lemma {:induction false} PushedTwice(entry: int, row: Row, m: Frames, cfa: int)
    requires EmittedAll(PUSHES, INITIAL).Some? && row == ApplyAll(EmittedAll(PUSHES, INITIAL).value, CIE_ROW)
    requires m == Run(Entry(entry), PUSHES) && CfaIs(row, m, cfa)
    ensures Words(RestoredFrom(PUSHES, Undo(PUSHES, FrameBase(PUSHES, m), m.sp))) != Words(RowSlots(row, cfa))
  {
    PushesShape();
    PushedTwiceDiffers(PUSHES, 0, 1, entry, row, m, cfa);
  }

  lemma {:induction false} PushedTwiceDiffers(ops: seq<Operation>, i: nat, j: nat, entry: int, row: Row, m: Frames,
                                              cfa: int)
    requires AllWellFormed(ops) && MachineOnlyFirst(ops) && OneHeader(ops) && AtBase(ops) && FitsStack(ops)
    requires EmittedAll(ops, INITIAL).Some? && row == ApplyAll(EmittedAll(ops, INITIAL).value, CIE_ROW)
    requires m == Run(Entry(entry), ops) && CfaIs(row, m, cfa)
    requires i < j < |ops| && ops[i].kind == Push && ops[j].kind == Push && ops[i].first == ops[j].first
    requires FirstStore(ops, i) && LastStore(ops, j)
    ensures Words(RestoredFrom(ops, Undo(ops, FrameBase(ops, m), m.sp))) != Words(RowSlots(row, cfa))
  {
    RepeatedPushDiffers(ops, i, j);
    var same := WindowsMatchesDwarf(ops, entry, row, m, Undo(ops, FrameBase(ops, m), m.sp));
  }

  /** They compile, so such a row and CFA exist. */
  lemma {:induction false} PushedTwiceCompiles()
    ensures EmittedAll(PUSHES, INITIAL).Some?
  {
    CompilesIff(PUSHES);
  }

  /** A save before an allocation is not at the frame base: undoing reads it from the wrong slot. */
  lemma {:induction false} SavedTooEarly(entry: int)
    ensures DecodeCodes(PLAIN, [2, 2, 1, 0x34, 0, 0]) == Some([SAVE_1, ALLOC_2])
    ensures !AtBase([SAVE_1, ALLOC_2]) && !Agrees([SAVE_1, ALLOC_2], entry)
  {
    var ops := [SAVE_1, ALLOC_2];
    EarlySaveDecodes();
    TwoUses(SAVE_1, ALLOC_2);
    assert BasePosition(ops) == 2 && ops[..2] == ops;
    assert Depth(ops, 0) == 0 && Depth(ops, 2) == 8;
    BackwardEqualsForward(ops, entry);
  }

  lemma {:induction false} LateMachineCompiles()
    ensures FunctionProgram([], [PUSH_1, MACHINE_2]).Some?
  {
    var ops := [PUSH_1, MACHINE_2];
    assert ops[1..] == [MACHINE_2] && [MACHINE_2][1..] == [];
    assert Emitted(MACHINE_2, Next(PUSH_1, INITIAL)).Some?;
    assert OwnProgram([], 2, Next(MACHINE_2, Next(PUSH_1, INITIAL))).Some?;
    assert OwnProgram([MACHINE_2], 1, Next(PUSH_1, INITIAL)).Some?;
    EmittedIff(PUSH_1, INITIAL);
  }

  lemma {:induction false} LateMachineDone()
    ensures Done([], [PUSH_1, MACHINE_2], 2) == [PUSH_1, MACHINE_2]
  {
    var ops := [PUSH_1, MACHINE_2];
    ExecutedIs(ops, 2, 1);
    ExecutedPrefix(ops, 2);
    assert ops[..2] == ops && [] + ops == ops;
  }

  /** A machine frame after a push: the row at offset 2 is wrong. */
  lemma {:induction false} LateMachine(sp: int)
    ensures DecodeCodes(PLAIN, [2, 0x0A, 1, 0x30]) == Some([PUSH_1, MACHINE_2])
    ensures FunctionProgram([], [PUSH_1, MACHINE_2]).Some? && !RightAt([], [PUSH_1, MACHINE_2], sp, 0, 2)
  {
    LateMachineDecodes();
    LateMachineCompiles();
    LateMachineDone();
    LateMachineUse();
    UsedBefore([PUSH_1, MACHINE_2], 1, sp, 2);
  }

  lemma {:induction false} LateMachineUse()
    ensures FitsStack([] + [PUSH_1, MACHINE_2]) && TotalUse([PUSH_1, MACHINE_2][..1]) == 8
  {
    TwoUses(PUSH_1, MACHINE_2);
    assert [] + [PUSH_1, MACHINE_2] == [PUSH_1, MACHINE_2];
  }

  /** Stack use before a machine frame spoils the row once both have executed. */
  lemma {:induction false} UsedBefore(ops: seq<Operation>, q: nat, sp: int, d: nat)
    requires AllWellFormed([] + ops) && SortedByOffset(ops) && FitsStack([] + ops) && FunctionProgram([], ops).Some?
    requires q < |ops| && ops[q].kind == Machine && TotalUse(ops[..q]) > 0 && Done([], ops, d) == ops
    ensures !RightAt([], ops, sp, 0, d)
  {
    RightExactly([], ops, sp, 0, d);
  }

  lemma {:induction false} RedoneCompiles()
    ensures FunctionProgram([], REDONE).Some?
  {
    var s1 := Next(FRAME_1, INITIAL);
    var s2 := Next(MACHINE_1, s1);
    assert REDONE[1..] == [MACHINE_1, FRAME_1] && [MACHINE_1, FRAME_1][1..] == [FRAME_1] && [FRAME_1][1..] == [];
    assert OwnProgram([], 1, Next(FRAME_1, s2)).Some?;
    assert OwnProgram([FRAME_1], 1, s2).Some?;
    assert OwnProgram([MACHINE_1, FRAME_1], 1, s1).Some?;
  }

  lemma {:induction false} RedoneSettled()
    ensures SettledInGroups([], REDONE)
  {
    assert [] + REDONE == REDONE && REDONE[..3] == REDONE && REDONE[..1] == [FRAME_1] && [FRAME_1][1..] == [];
    assert TotalUse(REDONE[..1]) == 0;
    ExecutedIs(REDONE, 1, 2);
    ExecutedPrefix(REDONE, 1);
    assert GroupEnd([], REDONE, 1) == 3;
    assert REDONE[2..] == [FRAME_1] && [FRAME_1][0].kind == Frame;
    assert SettledInGroup([], REDONE, 1);
  }

  lemma {:induction false} RedoneShape()
    ensures AllWellFormed(REDONE) && SortedByOffset(REDONE) && !MachineOnlyFirst(REDONE)
  {
    assert REDONE[1].kind == Machine;
  }

  /**
   * A machine frame between two SET_FPREG of one group (see RedoneFrameDecodes) does no harm, though it is not first.
   */
  lemma {:induction false} RedoneFrame(sp: int, d: nat)
    ensures FunctionProgram([], REDONE).Some? && RightAt([], REDONE, sp, 0, d)
  {
    RedoneCompiles();
    RedoneSettled();
    RedoneShape();
    GroupedRight(REDONE, sp, d);
  }

  lemma {:induction false} GroupedRight(ops: seq<Operation>, sp: int, d: nat)
    requires AllWellFormed(ops) && SortedByOffset(ops) && FunctionProgram([], ops).Some? && SettledInGroups([], ops)
    ensures RightAt([], ops, sp, 0, d)
  {
    assert [] + ops == ops;
    GroupsSettle([], ops, d);
    MeaningPreserved([], ops, sp, 0, d);
  }
}
