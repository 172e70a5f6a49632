/**
 * The Windows way back: a record's codes are undone in array order, latest operation first, with saves
 * addressed from the frame base. It is compared with the forward prolog machine that the row describes.
 */
module WindowsUnwinder {
  import opened Bytes
  import opened Wrappers
  import opened Prolog
  import opened CallFrame
  import opened Compile
  import opened UnwindMeaning

  /** What undoing leaves: the stack pointer reached and, per operation, the slot its register was loaded from. */
  datatype Undone = Undone(sp: int, slots: seq<Option<int>>)

  /** Undoes the operations of a record, given in ascending prolog order as the decoder keeps them. */
  function Undo(ops: seq<Operation>, base: int, sp: int): (u: Undone)
    ensures |u.slots| == |ops|
    decreases |ops|
  {
    if ops == [] then Undone(sp, [])
    else
      var n := |ops| - 1;
      var op := ops[n];
      match op.kind
      case Push => Then(Undo(ops[..n], base, sp + 8), Some(sp))
      case Alloc => Then(Undo(ops[..n], base, sp + op.first), None)
      case Frame => Then(Undo(ops[..n], base, base), None)
      case Save => Then(Undo(ops[..n], base, sp), Some(base + op.second))
      case Machine => Then(Undo(ops[..n], base, sp + op.first), Some(sp + op.first - 40))
  }

  function Then(u: Undone, slot: Option<int>): Undone { u.(slots := u.slots + [slot]) }

  /** The position whose stack pointer is the frame base: the last SET_FPREG, or the end of the prolog. */
  function BasePosition(ops: seq<Operation>): (p: nat)
    ensures p <= |ops|
    ensures p < |ops| ==> ops[p].kind == Frame
    ensures p < |ops| <==> exists i :: 0 <= i < |ops| && ops[i].kind == Frame
    ensures p < |ops| ==> forall i :: p < i < |ops| ==> ops[i].kind != Frame
  {
    if ops == [] then 0
    else if ops[|ops| - 1].kind == Frame then |ops| - 1
    else
      var p := BasePosition(ops[..|ops| - 1]);
      if p == |ops| - 1 then |ops| else p
  }

  /** All SET_FPREG codes of a record share the register and offset in its header. */
  predicate OneHeader(ops: seq<Operation>) {
    forall i, j :: 0 <= i < |ops| && 0 <= j < |ops| && ops[i].kind == Frame && ops[j].kind == Frame ==>
                     ops[i].first == ops[j].first && ops[i].second == ops[j].second
  }

  /** The frame base as the unwinder finds it from the machine after the prolog. */
  function FrameBase(ops: seq<Operation>, m: Frames): int {
    var p := BasePosition(ops);
    if p < |ops| && ops[p].first as nat in m.regs then m.regs[ops[p].first] - ops[p].second else m.sp
  }

  function Depth(ops: seq<Operation>, i: nat): nat
    requires i <= |ops|
  {
    TotalUse(ops[..i])
  }

  /** The slot each operation really wrote, for a prolog entered with the given stack pointer. */
  function Written(ops: seq<Operation>, entry: int): seq<Option<int>> {
    seq(|ops|, i requires 0 <= i < |ops| => WrittenAt(ops, entry, i))
  }

  function WrittenAt(ops: seq<Operation>, entry: int, i: nat): Option<int>
    requires i < |ops|
  {
    match ops[i].kind
    case Push => Some(entry - Depth(ops, i) - 8)
    case Save => Some(entry - Depth(ops, i) + ops[i].second)
    case Machine => Some(entry - Depth(ops, i) - 40)
    case _ => None
  }

  /** Every save and every SET_FPREG happens at the depth of the frame base. */
  predicate AtBase(ops: seq<Operation>) {
    forall i :: 0 <= i < |ops| && (ops[i].kind == Save || ops[i].kind == Frame) ==>
                  Depth(ops, i) == Depth(ops, BasePosition(ops))
  }

  // ----- the forward machine in terms of depths

  lemma {:induction false} DepthStep(ops: seq<Operation>, i: nat)
    requires i < |ops|
    ensures Depth(ops, i + 1) == Depth(ops, i) + StackUse(ops[i])
  {
    assert ops[..i + 1] == ops[..i] + [ops[i]];
    TotalUseAppend(ops[..i], [ops[i]]);
    assert [ops[i]][1..] == [];
  }

  lemma {:induction false} SpAfter(ops: seq<Operation>, m: Frames)
    ensures Run(m, ops).sp == m.sp - TotalUse(ops)
    decreases |ops|
  {
    if ops != [] {
      SpAfter(ops[1..], Step(m, ops[0]));
    }
  }

  lemma {:induction false} LastStep(ops: seq<Operation>, m: Frames)
    requires ops != []
    ensures Run(m, ops) == Step(Run(m, ops[..|ops| - 1]), ops[|ops| - 1])
  {
    var n := |ops| - 1;
    assert ops == ops[..n] + [ops[n]];
    RunAppend(m, ops[..n], [ops[n]]);
    assert [ops[n]][1..] == [];
  }

  /** The frame register still holds what the last SET_FPREG put there. */
  lemma {:induction false} FrameRegisterKept(ops: seq<Operation>, m: Frames)
    requires OneHeader(ops) && BasePosition(ops) < |ops|
    ensures var p := BasePosition(ops);
            && ops[p].first as nat in Run(m, ops).regs
            && Run(m, ops).regs[ops[p].first] == m.sp - Depth(ops, p) + ops[p].second
    decreases |ops|
  {
    var n, p := |ops| - 1, BasePosition(ops);
    LastStep(ops, m);
    if p == n {
      SpAfter(ops[..n], m);
    } else {
      assert ops[..n][..p] == ops[..p];
      FrameRegisterKept(ops[..n], m);
    }
  }

  lemma {:induction false} FrameBaseIs(ops: seq<Operation>, m: Frames)
    requires OneHeader(ops)
    ensures FrameBase(ops, Run(m, ops)) == m.sp - Depth(ops, BasePosition(ops))
  {
    if BasePosition(ops) < |ops| {
      FrameRegisterKept(ops, m);
    } else {
      SpAfter(ops, m);
      assert ops[..|ops|] == ops;
    }
  }

  // ----- agreement

  /** Undoing from the true stack pointer with saves and frames at the base retraces every write. */
  lemma {:induction false} UndoRetraces(ops: seq<Operation>, k: nat, entry: int, base: int)
    requires k <= |ops|
    requires forall i :: 0 <= i < k && (ops[i].kind == Save || ops[i].kind == Frame) ==> entry - Depth(ops, i) == base
    ensures Undo(ops[..k], base, entry - Depth(ops, k)).sp == entry
    ensures Undo(ops[..k], base, entry - Depth(ops, k)).slots == Written(ops, entry)[..k]
    decreases k
  {
    if k > 0 {
      var n := k - 1;
      assert ops[..k][..n] == ops[..n];
      DepthStep(ops, n);
      UndoRetraces(ops, n, entry, base);
      assert Written(ops, entry)[..k] == Written(ops, entry)[..n] + [WrittenAt(ops, entry, n)];
    }
  }

  /** A read that is right says that the save happened at the base. */
  lemma {:induction false} ReadOfSave(ops: seq<Operation>, base: int, sp: int, i: nat)
    requires i < |ops| && ops[i].kind == Save
    ensures Undo(ops, base, sp).slots[i] == Some(base + ops[i].second)
    decreases |ops|
  {
    var n := |ops| - 1;
    if i < n {
      var op := ops[n];
      var sp' := match op.kind case Push => sp + 8 case Alloc => sp + op.first case Frame => base
                               case Save => sp case Machine => sp + op.first;
      ReadOfSave(ops[..n], base, sp', i);
      assert Undo(ops, base, sp).slots[..n] == Undo(ops[..n], base, sp').slots;
    }
  }

  /** Undoing past a SET_FPREG forgets everything later: the result counts from the earliest one. */
  lemma {:induction false} UndoFromFrame(ops: seq<Operation>, base: int, sp: int, f: nat)
    requires f < |ops| && ops[f].kind == Frame
    requires forall i :: 0 <= i < f ==> ops[i].kind != Frame
    ensures Undo(ops, base, sp).sp == base + Depth(ops, f)
    decreases |ops|
  {
    var n := |ops| - 1;
    var op := ops[n];
    if f == n {
      NoFrameUndo(ops[..n], base, base);
    } else {
      var sp' := match op.kind case Push => sp + 8 case Alloc => sp + op.first case Frame => base
                               case Save => sp case Machine => sp + op.first;
      UndoFromFrame(ops[..n], base, sp', f);
      assert ops[..n][..f] == ops[..f];
    }
  }

  lemma {:induction false} NoFrameUndo(ops: seq<Operation>, base: int, sp: int)
    requires forall i :: 0 <= i < |ops| ==> ops[i].kind != Frame
    ensures Undo(ops, base, sp).sp == sp + TotalUse(ops)
    decreases |ops|
  {
    if ops != [] {
      var n := |ops| - 1;
      DepthStep(ops, n);
      assert ops[..|ops|] == ops;
      var op := ops[n];
      NoFrameUndo(ops[..n], base, if op.kind == Save then sp else sp + StackUse(op));
    }
  }

  /** The caller's stack pointer and every slot come out as the prolog left them. */
  predicate Agrees(ops: seq<Operation>, entry: int) {
    var m := Run(Entry(entry), ops);
    Undo(ops, FrameBase(ops, m), m.sp) == Undone(entry, Written(ops, entry))
  }

  lemma {:induction false} FrameDepthAgrees(ops: seq<Operation>, base: int, sp: int, entry: int)
    requires BasePosition(ops) < |ops| && base == entry - Depth(ops, BasePosition(ops))
    requires Undo(ops, base, sp).sp == entry
    ensures forall i :: 0 <= i < |ops| && ops[i].kind == Frame ==> Depth(ops, i) == Depth(ops, BasePosition(ops))
  {
    var p := BasePosition(ops);
    var f := 0;
    while ops[f].kind != Frame
      invariant f <= p && forall i :: 0 <= i < f ==> ops[i].kind != Frame
      decreases p - f
    {
      f := f + 1;
    }
    UndoFromFrame(ops, base, sp, f);
    forall i | 0 <= i < |ops| && ops[i].kind == Frame ensures Depth(ops, i) == Depth(ops, p) {
      DepthMonotone(ops, f, i);
      DepthMonotone(ops, i, p);
    }
  }

  lemma {:induction false} DepthMonotone(ops: seq<Operation>, i: nat, j: nat)
    requires i <= j <= |ops|
    ensures Depth(ops, i) <= Depth(ops, j)
    decreases j - i
  {
    if i < j {
      DepthStep(ops, j - 1);
      DepthMonotone(ops, i, j - 1);
    }
  }

  /**
   * Main result, exact in both directions: undoing backwards recovers the caller's stack pointer and the slot
   * of every operation just when each save and each SET_FPREG happens at the depth of the frame base. Prologs
   * in which no push or allocation follows a save or a SET_FPREG are of that kind (see OrderlyIsAtBase).
   */
  lemma {:induction false} BackwardEqualsForward(ops: seq<Operation>, entry: int)
    requires OneHeader(ops)
    ensures Agrees(ops, entry) <==> AtBase(ops)
  {
    var m := Run(Entry(entry), ops);
    var base, p := FrameBase(ops, m), BasePosition(ops);
    FrameBaseIs(ops, Entry(entry));
    SpAfter(ops, Entry(entry));
    assert ops[..|ops|] == ops;
    if AtBase(ops) {
      UndoRetraces(ops, |ops|, entry, base);
      assert Written(ops, entry)[..|ops|] == Written(ops, entry);
    }
    if Agrees(ops, entry) {
      if p < |ops| {
        FrameDepthAgrees(ops, base, m.sp, entry);
      }
      forall i | 0 <= i < |ops| && ops[i].kind == Save ensures Depth(ops, i) == Depth(ops, p) {
        ReadOfSave(ops, base, m.sp, i);
        assert Written(ops, entry)[i] == WrittenAt(ops, entry, i);
      }
    }
  }

  /** No push, allocation or machine frame comes after a save or a SET_FPREG. */
  predicate Orderly(ops: seq<Operation>) {
    forall i, j :: 0 <= i < j < |ops| && (ops[i].kind == Save || ops[i].kind == Frame) ==>
                     ops[j].kind == Save || ops[j].kind == Frame
  }

  lemma {:induction false} FlatFrom(ops: seq<Operation>, i: nat, j: nat)
    requires Orderly(ops) && i <= j <= |ops|
    requires i < |ops| ==> ops[i].kind == Save || ops[i].kind == Frame
    ensures Depth(ops, i) == Depth(ops, j)
    decreases j - i
  {
    if i < j {
      DepthStep(ops, j - 1);
      FlatFrom(ops, i, j - 1);
    }
  }

  lemma {:induction false} OrderlyIsAtBase(ops: seq<Operation>)
    requires Orderly(ops)
    ensures AtBase(ops)
  {
    var p := BasePosition(ops);
    forall i | 0 <= i < |ops| && (ops[i].kind == Save || ops[i].kind == Frame)
      ensures Depth(ops, i) == Depth(ops, p)
    {
      if i <= p { FlatFrom(ops, i, p); } else { FlatFrom(ops, p, i); }
    }
  }

  // ----- from slots per operation to slots per register

  /** No other operation stores the register earlier, or later. */
  predicate FirstStore(ops: seq<Operation>, i: nat)
    requires i < |ops|
  {
    StoredRegister(ops[i]).Some? && forall j :: 0 <= j < i ==> StoredRegister(ops[j]) != StoredRegister(ops[i])
  }

  predicate LastStore(ops: seq<Operation>, i: nat)
    requires i < |ops|
  {
    StoredRegister(ops[i]).Some? && forall j :: i < j < |ops| ==> StoredRegister(ops[j]) != StoredRegister(ops[i])
  }

  /**
   * The registers undoing loads. A code undone later overrides: of several stores, the earliest one's slot is read
   * last.
   */
  function Loads(ops: seq<Operation>, slots: seq<Option<int>>): map<nat, int>
    requires |slots| == |ops|
    decreases |ops|
  {
    if ops == [] then map[]
    else
      var n := |ops| - 1;
      var last: map<nat, int> :=
        if StoredRegister(ops[n]).Some? && slots[n].Some? then map[StoredRegister(ops[n]).value := slots[n].value]
        else map[];
      last + Loads(ops[..n], slots[..n])
  }

  /** Where undoing finally takes each register from; the return address is on top unless a machine frame holds it. */
  function RestoredFrom(ops: seq<Operation>, u: Undone): map<nat, int>
    requires |u.slots| == |ops|
  {
    (map[RIP := u.sp]) + Loads(ops, u.slots)
  }

  /** Where a row says each register is. */
  function RowSlots(row: Row, cfa: int): map<nat, int> { map r | r in row.rules :: cfa + row.rules[r] }

  /** Addresses as 64-bit words. */
  function Words(slots: map<nat, int>): map<nat, U64> { map r | r in slots :: Wrap64(slots[r]) }

  /** A register's first and last store write the same slot. */
  predicate StoredInOnePlace(ops: seq<Operation>) {
    forall i, j :: 0 <= i < |ops| && 0 <= j < |ops| && OneRegister(ops, i, j) ==>
           SameAddress(SlotOffset(ops, i), SlotOffset(ops, j))
  }

  /** Position i is the first and j the last store of one register. */
  predicate OneRegister(ops: seq<Operation>, i: nat, j: nat)
    requires i < |ops| && j < |ops|
  {
    FirstStore(ops, i) && LastStore(ops, j) && StoredRegister(ops[i]) == StoredRegister(ops[j])
  }

  /** A store's slot relative to the entry stack pointer. */
  function SlotOffset(ops: seq<Operation>, i: nat): int
    requires i < |ops|
  {
    var w := WrittenAt(ops, 0, i);
    if w.Some? then w.value else 0
  }

  lemma {:induction false} WrittenRelative(ops: seq<Operation>, entry: int, i: nat)
    requires i < |ops| && StoredRegister(ops[i]).Some?
    ensures WrittenAt(ops, entry, i) == Some(entry + SlotOffset(ops, i))
  {
  }

  lemma {:induction false} FindFirst(ops: seq<Operation>, reg: nat) returns (i: nat)
    requires Stores(ops, reg)
    ensures i < |ops| && StoredRegister(ops[i]) == Some(reg) && FirstStore(ops, i)
  {
    i := 0;
    while StoredRegister(ops[i]) != Some(reg)
      invariant i < |ops| && forall j :: 0 <= j < i ==> StoredRegister(ops[j]) != Some(reg)
      decreases |ops| - i
    {
      i := i + 1;
    }
  }

  lemma {:induction false} FindLast(ops: seq<Operation>, reg: nat) returns (i: nat)
    requires Stores(ops, reg)
    ensures i < |ops| && StoredRegister(ops[i]) == Some(reg) && LastStore(ops, i)
  {
    var k: int := |ops| - 1;
    while StoredRegister(ops[k]) != Some(reg)
      invariant 0 <= k < |ops| && forall j :: k < j < |ops| ==> StoredRegister(ops[j]) != Some(reg)
      decreases k
    {
      k := k - 1;
    }
    i := k;
  }

  /** The machine, and so every faithful row, knows for a register the slot of its last store. */
  lemma {:induction false} SavedIsLastStore(ops: seq<Operation>, entry: int, i: nat)
    requires i < |ops| && LastStore(ops, i)
    ensures var saved, reg := Run(Entry(entry), ops).saved, StoredRegister(ops[i]).value;
            reg in saved && Some(saved[reg]) == WrittenAt(ops, entry, i)
    decreases |ops|
  {
    var n := |ops| - 1;
    LastStep(ops, Entry(entry));
    SpAfter(ops[..n], Entry(entry));
    if i < n {
      assert ops[..n][..i] == ops[..i];
      assert forall j :: i < j < n ==> ops[..n][j] == ops[j];
      SavedIsLastStore(ops[..n], entry, i);
      assert WrittenAt(ops[..n], entry, i) == WrittenAt(ops, entry, i);
    }
  }

  lemma {:induction false} SavedKeys(ops: seq<Operation>, m: Frames, reg: nat)
    ensures reg in Run(m, ops).saved <==> reg in m.saved || Stores(ops, reg)
    ensures reg in m.saved && !Stores(ops, reg) ==> Run(m, ops).saved[reg] == m.saved[reg]
    decreases |ops|
  {
    if ops != [] {
      StoresCons(ops, reg);
      SavedKeys(ops[1..], Step(m, ops[0]), reg);
    }
  }

  /** Undoing ends with the slot of the first store. */
  lemma {:induction false} LoadsFirstStore(ops: seq<Operation>, slots: seq<Option<int>>, i: nat)
    requires |slots| == |ops| && i < |ops| && FirstStore(ops, i)
    requires slots[i].Some?
    ensures StoredRegister(ops[i]).value in Loads(ops, slots)
            && Loads(ops, slots)[StoredRegister(ops[i]).value] == slots[i].value
    decreases |ops|
  {
    var n := |ops| - 1;
    if i < n {
      assert ops[..n][i] == ops[i] && forall j :: 0 <= j < i ==> ops[..n][j] == ops[j];
      LoadsFirstStore(ops[..n], slots[..n], i);
    } else {
      LoadsOnlyStored(ops[..n], slots[..n], StoredRegister(ops[i]).value);
    }
  }

  lemma {:induction false} LoadsOnlyStored(ops: seq<Operation>, slots: seq<Option<int>>, reg: nat)
    requires |slots| == |ops|
    ensures reg in Loads(ops, slots) ==> Stores(ops, reg)
    decreases |ops|
  {
    if ops != [] {
      var n := |ops| - 1;
      LoadsOnlyStored(ops[..n], slots[..n], reg);
      if Stores(ops[..n], reg) {
        var i :| 0 <= i < n && StoredRegister(ops[..n][i]) == Some(reg);
        assert StoredRegister(ops[i]) == Some(reg);
      }
    }
  }

  /** For one register, undoing ends at the slot the machine knows exactly when its first and last store agree. */
  lemma {:induction false} RegisterAgrees(ops: seq<Operation>, entry: int, reg: nat, first: nat, last: nat)
    requires first < |ops| && FirstStore(ops, first) && StoredRegister(ops[first]) == Some(reg)
    requires last < |ops| && LastStore(ops, last) && StoredRegister(ops[last]) == Some(reg)
    ensures var restored, saved := RestoredFrom(ops, Undone(entry, Written(ops, entry))), Run(Entry(entry), ops).saved;
            && reg in restored && reg in saved
            && (SameAddress(restored[reg], saved[reg]) <==> SameAddress(SlotOffset(ops, first), SlotOffset(ops, last)))
  {
    SavedIsLastStore(ops, entry, last);
    WrittenRelative(ops, entry, first);
    WrittenRelative(ops, entry, last);
    LoadsFirstStore(ops, Written(ops, entry), first);
    SameOffset(entry, SlotOffset(ops, first), SlotOffset(ops, last));
  }

  /** A register without a store is the return address in its place on entry. */
  lemma {:induction false} UnstoredAgrees(ops: seq<Operation>, entry: int, reg: nat)
    requires !Stores(ops, reg)
    ensures var restored, saved := RestoredFrom(ops, Undone(entry, Written(ops, entry))), Run(Entry(entry), ops).saved;
            && (reg in restored <==> reg == RIP) && (reg in saved <==> reg == RIP)
            && (reg == RIP ==> restored[reg] == saved[reg])
  {
    SavedKeys(ops, Entry(entry), reg);
    LoadsOnlyStored(ops, Written(ops, entry), reg);
  }

  lemma {:induction false} SlotsAgreeExactly(ops: seq<Operation>, entry: int)
    ensures Words(RestoredFrom(ops, Undone(entry, Written(ops, entry)))) == Words(Run(Entry(entry), ops).saved) <==>
            StoredInOnePlace(ops)
  {
    var restored, saved := RestoredFrom(ops, Undone(entry, Written(ops, entry))), Run(Entry(entry), ops).saved;
    if StoredInOnePlace(ops) {
      forall reg: nat
        ensures reg in restored <==> reg in saved
        ensures reg in restored ==> SameAddress(restored[reg], saved[reg])
      {
        if Stores(ops, reg) {
          var first := FindFirst(ops, reg);
          var last := FindLast(ops, reg);
          assert OneRegister(ops, first, last);
          RegisterAgrees(ops, entry, reg, first, last);
        } else {
          UnstoredAgrees(ops, entry, reg);
        }
      }
    }
    if Words(restored) == Words(saved) {
      forall i, j | 0 <= i < |ops| && 0 <= j < |ops| && OneRegister(ops, i, j)
        ensures SameAddress(SlotOffset(ops, i), SlotOffset(ops, j))
      {
        var reg := StoredRegister(ops[i]).value;
        RegisterAgrees(ops, entry, reg, i, j);
        assert Words(restored)[reg] == Words(saved)[reg];
      }
    }
  }

  lemma {:induction false} FrameTopIs(ops: seq<Operation>, entry: int)
    requires MachineOnlyFirst(ops)
    ensures Run(Entry(entry), ops).frameTop == if ops != [] && ops[0].kind == Machine then entry else entry + 8
    decreases |ops|
  {
    if |ops| > 0 {
      LastStep(ops, Entry(entry));
      FrameTopIs(ops[..|ops| - 1], entry);
    }
  }

  /** The row a whole operation list compiles to is right when a machine frame can only be first. */
  lemma {:induction false} WholeRowFaithful(ops: seq<Operation>, entry: int)
    requires AllWellFormed(ops) && MachineOnlyFirst(ops) && EmittedAll(ops, INITIAL).Some?
    ensures Faithful(ApplyAll(EmittedAll(ops, INITIAL).value, CIE_ROW), Run(Entry(entry), ops))
  {
    EntryTracks(entry);
    var w := RunTracks(ops, AT_ENTRY, NO_WRAPS, INITIAL, CIE_ROW, Entry(entry), entry);
    FaithfulIffSettled(ShadeAll(AT_ENTRY, ops), w, NextAll(ops, INITIAL),
                       ApplyAll(EmittedAll(ops, INITIAL).value, CIE_ROW),
                       Run(Entry(entry), ops), entry);
    SettledSuffices(ops);
  }

  /** The address a row computes as the CFA. */
  predicate CfaIs(row: Row, m: Frames, cfa: int) {
    RegisterValue(m, row.cfaReg) == Some(cfa - row.cfaOffset)
  }

  lemma {:induction false} FaithfulWords(row: Row, m: Frames, cfa: int)
    requires Faithful(row, m) && CfaIs(row, m, cfa)
    ensures SameAddress(cfa, m.frameTop) && Words(RowSlots(row, cfa)) == Words(m.saved)
  {
    forall r | r in row.rules ensures SameAddress(cfa + row.rules[r], m.saved[r]) {
      SameOffset(row.rules[r], cfa, m.frameTop);
    }
  }

  lemma {:induction false} WholeRow(ops: seq<Operation>, entry: int, row: Row, m: Frames) returns (cfa: int)
    requires AllWellFormed(ops) && MachineOnlyFirst(ops) && EmittedAll(ops, INITIAL).Some?
    requires row == ApplyAll(EmittedAll(ops, INITIAL).value, CIE_ROW) && m == Run(Entry(entry), ops)
    ensures CfaIs(row, m, cfa) && SameAddress(cfa, m.frameTop) && Words(RowSlots(row, cfa)) == Words(m.saved)
  {
    WholeRowFaithful(ops, entry);
    cfa := RegisterValue(m, row.cfaReg).value + row.cfaOffset;
    FaithfulWords(row, m, cfa);
  }

  lemma {:induction false} UndoneIs(ops: seq<Operation>, entry: int, m: Frames, u: Undone)
    requires OneHeader(ops) && AtBase(ops) && m == Run(Entry(entry), ops) && u == Undo(ops, FrameBase(ops, m), m.sp)
    ensures u == Undone(entry, Written(ops, entry))
  {
    BackwardEqualsForward(ops, entry);
  }

  /**
   * The two unwinders on one prolog, whole. When every save and SET_FPREG is at the frame base, the CFA of the emitted
   * row is the caller's stack pointer that undoing arrives at (past the return address); and undoing takes every
   * register from the slot the row names exactly when each register's first and last store write the same slot.
   */
  lemma {:induction false} WindowsMatchesDwarf(ops: seq<Operation>, entry: int, row: Row, m: Frames,
                                               u: Undone) returns (cfa: int)
    requires AllWellFormed(ops) && MachineOnlyFirst(ops) && OneHeader(ops) && AtBase(ops)
    requires EmittedAll(ops, INITIAL).Some? && row == ApplyAll(EmittedAll(ops, INITIAL).value, CIE_ROW)
    requires m == Run(Entry(entry), ops) && u == Undo(ops, FrameBase(ops, m), m.sp)
    ensures CfaIs(row, m, cfa) && SameAddress(cfa, u.sp + (if ops != [] && ops[0].kind == Machine then 0 else 8))
    ensures Words(RestoredFrom(ops, u)) == Words(RowSlots(row, cfa)) <==> StoredInOnePlace(ops)
  {
    cfa := WholeRow(ops, entry, row, m);
    UndoneIs(ops, entry, m, u);
    FrameTopIs(ops, entry);
    SlotsAgreeExactly(ops, entry);
  }

  /** A register pushed twice is never stored in one place, unless 2^64 bytes lie between. */
  lemma {:induction false} RepeatedPushDiffers(ops: seq<Operation>, i: nat, j: nat)
    requires i < j < |ops| && ops[i].kind == Push && ops[j].kind == Push && ops[i].first == ops[j].first
    requires FirstStore(ops, i) && LastStore(ops, j) && FitsStack(ops)
    ensures !StoredInOnePlace(ops)
  {
    DepthStep(ops, i);
    DepthMonotone(ops, i + 1, j);
    DepthMonotone(ops, j, |ops|);
    assert ops[..|ops|] == ops;
    SameNearby(SlotOffset(ops, i), SlotOffset(ops, j));
    assert OneRegister(ops, i, j);
  }
}
