/** The compiled call-frame program means what the prolog does, at every instruction of the function. */
module UnwindMeaning {
  import opened Bytes
  import opened Wrappers
  import opened Prolog
  import opened CallFrame
  import opened Compile

  /** A function's own operations, each group preceded by an advance to its code offset. */
  function OwnProgram(own: seq<Operation>, position: nat, st: CfaState): Option<Program>
    decreases |own|
  {
    if own == [] then Some([])
    else
      var first :- Emitted(own[0], st);
      var more :- OwnProgram(own[1..], own[0].codeOffset, Next(own[0], st));
      Some(Advance(Wrap32(own[0].codeOffset - position)) + first + more)
  }

  function Advance(delta: U32): Program { if delta == 0 then [] else [AdvanceLoc(delta)] }

  /** What one FDE carries: the inherited operations at once, then the function's own as it advances. */
  function FunctionProgram(inherited: seq<Operation>, own: seq<Operation>): Option<Program> {
    var first :- EmittedAll(inherited, INITIAL);
    var more :- OwnProgram(own, 0, NextAll(inherited, INITIAL));
    Some(first + more)
  }

  function ApplyAll(p: Program, row: Row): Row {
    if p == [] then row else ApplyAll(p[1..], Apply(row, p[0], DATA_ALIGN))
  }

  function RowIn(p: Program, loc: nat, row: Row, target: nat): Row { RowAt(p, row, DATA_ALIGN, loc, target) }

  // ----- the agreement between a row and the machine

  function RegisterValue(m: Frames, reg: nat): Option<int> {
    if reg == RSP then Some(m.sp) else if reg in m.regs then Some(m.regs[reg]) else None
  }

  /** Addresses are 64-bit words. */
  predicate SameAddress(a: int, b: int) { Wrap64(a) == Wrap64(b) }

  /** The row's CFA is the frame top, and each register rule names the slot last written. */
  predicate Faithful(row: Row, m: Frames) {
    && RegisterValue(m, row.cfaReg).Some?
    && SameAddress(RegisterValue(m, row.cfaReg).value + row.cfaOffset, m.frameTop)
    && row.rules.Keys == m.saved.Keys
    && forall r :: r in row.rules ==> SameAddress(m.frameTop + row.rules[r], m.saved[r])
  }

  const WORD: int := 0x1_0000_0000_0000_0000

  lemma {:induction false} SameShifted(a: int, b: int, k: int)
    ensures a + 0x1_0000_0000_0000_0000 * k == b ==> SameAddress(a, b)
  {
    WrapMod(a);
    WrapMod(b);
    ShiftMod(a, k);
  }

  lemma {:induction false} WrapMod(x: int)
    ensures Wrap64(x) == x % 0x1_0000_0000_0000_0000
  {
  }

  lemma {:induction false} ShiftMod(x: int, k: int)
    ensures (x + 0x1_0000_0000_0000_0000 * k) % 0x1_0000_0000_0000_0000 == x % 0x1_0000_0000_0000_0000
  {
  }

  /** Two nearby numbers are the same address only if they are equal. */
  lemma {:induction false} SameNearby(a: int, b: int)
    requires -0x1_0000_0000_0000_0000 < a - b < 0x1_0000_0000_0000_0000
    ensures SameAddress(a, b) <==> a == b
  {
    var k := a / 0x1_0000_0000_0000_0000 - b / 0x1_0000_0000_0000_0000;
    WrapMod(a);
    WrapMod(b);
    assert SameAddress(a, b) ==> a - b == 0x1_0000_0000_0000_0000 * k;
  }

  /** How many times a sum has wrapped. */
  function Carry(x: int): int { if 0 <= x < 0x1_0000_0000_0000_0000 then 0 else x / 0x1_0000_0000_0000_0000 }

  lemma {:induction false} Carried(x: int)
    ensures x == Wrap64(x) + 0x1_0000_0000_0000_0000 * Carry(x)
  {
  }

  // ----- what the compiler takes the frame top to be

  /**
   * A shadow of a run: the true depth below the entry stack pointer, where the frame top really is, and, for the CFA
   * and each register's rule, the frame top that the compiler assumed when it emitted them, all relative to entry.
   */
  datatype Shadow = Shadow(depth: nat, bias: nat, framed: bool, frameBase: int, top: int, bases: map<nat, int>)

  const AT_ENTRY := Shadow(0, 8, false, 8, 8, map[RIP := 8])

  function Shade(s: Shadow, op: Operation): Shadow {
    match op.kind
    case Push => s.(depth := s.depth + 8, bases := s.bases[op.first as nat := s.bias])
    case Alloc => s.(depth := s.depth + op.first)
    case Frame => s.(framed := true, frameBase := s.bias)
    case Save => s.(bases := s.bases[op.first as nat := s.bias])
    case Machine => s.(depth := s.depth + op.first, bias := 0, top := -(s.depth as int), bases :=
                       s.bases[RIP := -(s.depth as int)])
  }

  function ShadeAll(s: Shadow, ops: seq<Operation>): Shadow
    decreases |ops|
  {
    if ops == [] then s else ShadeAll(Shade(s, ops[0]), ops[1..])
  }

  function CfaBase(s: Shadow): int { if s.framed then s.frameBase else s.bias }

  /** Every assumption was right. */
  predicate Settled(s: Shadow) {
    SameAddress(CfaBase(s), s.top) && forall r :: r in s.bases ==> SameAddress(s.bases[r], s.top)
  }

  /** How often 64-bit sums have wrapped: in the depth, in the CFA rule, and in each register's rule. */
  datatype Wraps = Wraps(depth: int, cfa: int, rules: map<nat, int>)

  /** The compiler's state and row follow the shadow, up to those wraps. */
  predicate Tracks(sh: Shadow, w: Wraps, st: CfaState, row: Row, m: Frames, entry: int) {
    && st.depth + 0x1_0000_0000_0000_0000 * w.depth == sh.depth && st.bias == sh.bias <= 8 && st.frame == sh.framed
    && m.sp == entry - sh.depth && m.frameTop == entry + sh.top && RSP !in m.regs
    && (row.cfaReg == RSP <==> !sh.framed) && RegisterValue(m, row.cfaReg).Some?
    && RegisterValue(m, row.cfaReg).value + row.cfaOffset + 0x1_0000_0000_0000_0000 * w.cfa == entry + CfaBase(sh)
    && RulesFollow(sh.bases, w.rules, row.rules, m.saved, entry)
  }

  const NO_WRAPS := Wraps(0, 0, map[RIP := 0])

  lemma {:induction false} EntryTracks(sp: int)
    ensures Tracks(AT_ENTRY, NO_WRAPS, INITIAL, CIE_ROW, Entry(sp), sp)
  {
  }

  lemma {:induction false} SlotRuleExact(reg: nat, offset: int, row: Row)
    requires SlotRule(reg, offset).Some?
    ensures ApplyAll(SlotRule(reg, offset).value, row) == row.(rules := row.rules[reg := offset])
  {
    var i := SavedAt(reg, -(offset / 8));
    assert SlotRule(reg, offset).value == [i];
    assert ApplyAll([i], row) == ApplyAll([], Apply(row, i, DATA_ALIGN));
    assert (-(offset / 8)) * DATA_ALIGN == offset;
  }

  lemma {:induction false} FollowStackExact(st: CfaState, row: Row)
    ensures ApplyAll(FollowStack(st), row) == if st.frame then row else row.(cfaOffset := Distance(st))
  {
    if !st.frame {
      var i := DefCfaOffset(Distance(st));
      assert ApplyAll([i], row) == ApplyAll([], Apply(row, i, DATA_ALIGN));
    }
  }

  lemma {:induction false} ApplyAllAppend(p: Program, q: Program, row: Row)
    ensures ApplyAll(p + q, row) == ApplyAll(q, ApplyAll(p, row))
    decreases |p|
  {
    if p == [] {
      assert p + q == q;
    } else {
      assert (p + q)[1..] == p[1..] + q;
      ApplyAllAppend(p[1..], q, Apply(row, p[0], DATA_ALIGN));
    }
  }

  /** The row after one operation, in closed form. */
  lemma {:induction false} EmittedRow(op: Operation, st: CfaState, row: Row)
    requires Emitted(op, st).Some?
    ensures var st' := Next(op, st);
            var moved := if st'.frame then row else row.(cfaOffset := Distance(st'));
            ApplyAll(Emitted(op, st).value, row) ==
            match op.kind
              case Push => moved.(rules := row.rules[op.first as nat := -Signed64(Distance(st'))])
              case Alloc => moved
              case Frame => row.(cfaReg := op.first, cfaOffset := Distance(st) - op.second)
              case Save => row.(rules := row.rules[op.first as nat := op.second - Signed64(Distance(st))])
              case Machine => moved.(rules := row.rules[RIP := -40])
  {
    var st' := Next(op, st);
    FollowStackExact(st', row);
    var moved := ApplyAll(FollowStack(st'), row);
    match op.kind
    case Push =>
      var rule := SlotRule(op.first, -Signed64(Distance(st')));
      ApplyAllAppend(FollowStack(st'), rule.value, row);
      SlotRuleExact(op.first, -Signed64(Distance(st')), moved);
    case Alloc =>
    case Frame =>
      var i := DefCfa(op.first, Distance(st) - op.second);
      assert ApplyAll([i], row) == ApplyAll([], Apply(row, i, DATA_ALIGN));
    case Save =>
      SlotRuleExact(op.first, op.second - Signed64(Distance(st)), row);
    case Machine =>
      ApplyAllAppend(FollowStack(st'), SlotRule(RIP, -40).value, row);
      SlotRuleExact(RIP, -40, moved);
  }

  function DepthWraps(op: Operation, st: CfaState, w: Wraps): int { w.depth + Carry(st.depth + StackUse(op)) }

  /** How often the distance of a slot has wrapped, read as a signed number. */
  function SlotWraps(op: Operation, st: CfaState, w: Wraps): int {
    var st' := Next(op, st);
    var back := if Distance(st') < 0x8000_0000_0000_0000 then 0 else -1;
    back - DepthWraps(op, st, w) - Carry(st'.depth + st'.bias)
  }

  /** The wraps after one operation. */
  function MoreWraps(op: Operation, st: CfaState, w: Wraps): Wraps {
    var st' := Next(op, st);
    var depth := DepthWraps(op, st, w);
    var cfa := if st.frame then w.cfa else depth + Carry(st'.depth + st'.bias);
    match op.kind
    case Push => Wraps(depth, cfa, w.rules[op.first as nat := SlotWraps(op, st, w)])
    case Alloc => Wraps(depth, cfa, w.rules)
    case Frame => Wraps(w.depth, w.depth + Carry(st.depth + st.bias), w.rules)
    case Save => Wraps(w.depth, w.cfa, w.rules[op.first as nat := SlotWraps(op, st, w)])
    case Machine => Wraps(depth, cfa, w.rules[RIP := 0])
  }

  lemma {:induction false} SlotSum(op: Operation, depth: nat, w: Wraps, st: CfaState)
    requires st.depth + 0x1_0000_0000_0000_0000 * w.depth == depth && Sums(op, st) && op.kind != Machine
    ensures Signed64(Distance(Next(op, st))) == depth + StackUse(op) + st.bias
            + 0x1_0000_0000_0000_0000 * SlotWraps(op, st, w)
  {
  }

  lemma {:induction false} StepTracks(op: Operation, sh: Shadow, w: Wraps, st: CfaState, row: Row, m: Frames,
                                      entry: int)
    requires WellFormed(op) && Tracks(sh, w, st, row, m, entry) && Emitted(op, st).Some?
    ensures Tracks(Shade(sh, op), MoreWraps(op, st, w), Next(op, st), ApplyAll(Emitted(op, st).value, row),
                   Step(m, op), entry)
  {
    var st', w' := Next(op, st), MoreWraps(op, st, w);
    EmittedRow(op, st, row);
    Carried(st.depth + StackUse(op));
    Carried(st.depth + st.bias);
    Carried(st'.depth + st'.bias);
    RulesTrack(op, sh, w, st, row, m, entry, ApplyAll(Emitted(op, st).value, row));
    CfaTracks(op, sh, w, st, row, m, entry, ApplyAll(Emitted(op, st).value, row));
  }

  /** The sums behind the two lemmas below. */
  predicate Sums(op: Operation, st: CfaState) {
    var st' := Next(op, st);
    && st.depth + StackUse(op) == st'.depth + 0x1_0000_0000_0000_0000 * Carry(st.depth + StackUse(op))
    && st.depth + st.bias == Distance(st) + 0x1_0000_0000_0000_0000 * Carry(st.depth + st.bias)
    && st'.depth + st'.bias == Distance(st') + 0x1_0000_0000_0000_0000 * Carry(st'.depth + st'.bias)
  }

  /** Each register's rule. */
  lemma {:induction false} RulesTrack(op: Operation, sh: Shadow, w: Wraps, st: CfaState, row: Row, m: Frames,
                                      entry: int, row': Row)
    requires WellFormed(op) && Tracks(sh, w, st, row, m, entry) && Sums(op, st)
    requires row'.rules == match op.kind
                           case Push => row.rules[op.first as nat := -Signed64(Distance(Next(op, st)))]
                           case Save => row.rules[op.first as nat := op.second - Signed64(Distance(st))]
                           case Machine => row.rules[RIP := -40]
                           case _ => row.rules
    ensures RulesFollow(Shade(sh, op).bases, MoreWraps(op, st, w).rules, row'.rules, Step(m, op).saved, entry)
  {
    if op.kind == Push {
      SlotSum(op, sh.depth, w, st);
      OneRule(sh.bases, w.rules, row.rules, m.saved, entry, op.first, sh.bias, SlotWraps(op, st, w),
              -Signed64(Distance(Next(op, st))), m.sp - 8);
    } else if op.kind == Save {
      SlotSum(op, sh.depth, w, st);
      OneRule(sh.bases, w.rules, row.rules, m.saved, entry, op.first, sh.bias, SlotWraps(op, st, w),
              op.second - Signed64(Distance(st)), m.sp + op.second);
    } else if op.kind == Machine {
      OneRule(sh.bases, w.rules, row.rules, m.saved, entry, RIP, -(sh.depth as int), 0, -40, m.sp - 40);
    }
  }

  /** Each slot is where the rule says, from the frame top assumed for it and up to wraps. */
  predicate RulesFollow(bases: map<nat, int>, wraps: map<nat, int>, rules: map<nat, int>, saved: map<nat, int>,
                        entry: int)
  {
    && rules.Keys == saved.Keys == bases.Keys == wraps.Keys
    && forall r :: r in bases ==> saved[r] == entry + bases[r] + rules[r] + 0x1_0000_0000_0000_0000 * wraps[r]
  }

  lemma {:induction false} OneRule(bases: map<nat, int>, wraps: map<nat, int>, rules: map<nat, int>, saved: map<nat,
                                   int>, entry: int,
                                   reg: nat, base: int, wrap: int, rule: int, slot: int)
    requires RulesFollow(bases, wraps, rules, saved, entry)
    requires slot == entry + base + rule + 0x1_0000_0000_0000_0000 * wrap
    ensures RulesFollow(bases[reg := base], wraps[reg := wrap], rules[reg := rule], saved[reg := slot], entry)
  {
  }

  /** The CFA rule, depth and frame top. */
  lemma {:induction false} CfaTracks(op: Operation, sh: Shadow, w: Wraps, st: CfaState, row: Row, m: Frames,
                                     entry: int, row': Row)
    requires WellFormed(op) && Tracks(sh, w, st, row, m, entry) && Sums(op, st)
    requires row'.cfaReg == if op.kind == Frame then op.first else row.cfaReg
    requires row'.cfaOffset == if op.kind == Frame then Distance(st) - op.second
                               else if st.frame || op.kind == Save then row.cfaOffset else Distance(Next(op, st))
    ensures var sh', w', st', m' := Shade(sh, op), MoreWraps(op, st, w), Next(op, st), Step(m, op);
            && st'.depth + 0x1_0000_0000_0000_0000 * w'.depth == sh'.depth && st'.bias == sh'.bias <= 8
               && st'.frame == sh'.framed
            && m'.sp == entry - sh'.depth && m'.frameTop == entry + sh'.top && RSP !in m'.regs
            && (row'.cfaReg == RSP <==> !sh'.framed) && RegisterValue(m', row'.cfaReg).Some?
            && RegisterValue(m', row'.cfaReg).value + row'.cfaOffset + 0x1_0000_0000_0000_0000 * w'.cfa == entry
               + CfaBase(sh')
  {
  }

  lemma {:induction false} RunTracks(ops: seq<Operation>, sh: Shadow, w: Wraps, st: CfaState, row: Row, m: Frames,
                                     entry: int)
    returns (w': Wraps)
    requires AllWellFormed(ops) && Tracks(sh, w, st, row, m, entry) && EmittedAll(ops, st).Some?
    ensures Tracks(ShadeAll(sh, ops), w', NextAll(ops, st), ApplyAll(EmittedAll(ops, st).value, row), Run(m, ops),
                   entry)
    decreases |ops|
  {
    w' := w;
    if ops != [] {
      var op := ops[0];
      var first := Emitted(op, st).value;
      StepTracks(op, sh, w, st, row, m, entry);
      w' := RunTracks(ops[1..], Shade(sh, op), MoreWraps(op, st, w), Next(op, st), ApplyAll(first, row), Step(m, op),
                      entry);
      ApplyAllAppend(first, EmittedAll(ops[1..], Next(op, st)).value, row);
    }
  }

  /** A row that is followed is right exactly when its assumptions were. */
  lemma {:induction false} FaithfulIffSettled(sh: Shadow, w: Wraps, st: CfaState, row: Row, m: Frames, entry: int)
    requires Tracks(sh, w, st, row, m, entry)
    ensures Faithful(row, m) <==> Settled(sh)
  {
    var cfa := RegisterValue(m, row.cfaReg).value + row.cfaOffset;
    SameShifted(cfa, entry + CfaBase(sh), w.cfa);
    SameOffset(entry, CfaBase(sh), sh.top);
    forall r | r in sh.bases
      ensures SameAddress(m.frameTop + row.rules[r], m.saved[r]) <==> SameAddress(sh.bases[r], sh.top)
    {
      SameShifted(entry + sh.bases[r] + row.rules[r], m.saved[r], w.rules[r]);
      SameOffset(entry + row.rules[r], sh.bases[r], sh.top);
    }
  }

  lemma {:induction false} SameOffset(a: int, x: int, y: int)
    ensures SameAddress(a + x, a + y) <==> SameAddress(x, y)
  {
    WrapMod(a + x);
    WrapMod(a + y);
    WrapMod(x);
    WrapMod(y);
    SameModOffset(a, x, y);
    SameModOffset(-a, a + x, a + y);
  }

  lemma {:induction false} SameModOffset(a: int, x: int, y: int)
    ensures x % 0x1_0000_0000_0000_0000 == y % 0x1_0000_0000_0000_0000 ==>
              (a + x) % 0x1_0000_0000_0000_0000 == (a + y) % 0x1_0000_0000_0000_0000
  {
    var k := x / 0x1_0000_0000_0000_0000 - y / 0x1_0000_0000_0000_0000;
    if x % 0x1_0000_0000_0000_0000 == y % 0x1_0000_0000_0000_0000 {
      assert a + x == (a + y) + 0x1_0000_0000_0000_0000 * k;
      ShiftMod(a + y, k);
    }
  }

  // ----- programs that advance

  predicate NoAdvance(p: Program) { forall i :: 0 <= i < |p| ==> !p[i].AdvanceLoc? }

  lemma {:induction false} EmittedNoAdvance(op: Operation, st: CfaState)
    ensures Emitted(op, st).Some? ==> NoAdvance(Emitted(op, st).value)
  {
  }

  lemma {:induction false} EmittedAllNoAdvance(ops: seq<Operation>, st: CfaState)
    ensures EmittedAll(ops, st).Some? ==> NoAdvance(EmittedAll(ops, st).value)
  {
    if ops != [] {
      EmittedNoAdvance(ops[0], st);
      EmittedAllNoAdvance(ops[1..], Next(ops[0], st));
    }
  }

  lemma {:induction false} RowInAppend(p: Program, q: Program, loc: nat, row: Row, target: nat)
    requires NoAdvance(p)
    ensures RowIn(p + q, loc, row, target) == RowIn(q, loc, ApplyAll(p, row), target)
    decreases |p|
  {
    if p == [] {
      assert p + q == q;
    } else {
      assert (p + q)[1..] == p[1..] + q;
      RowInAppend(p[1..], q, loc, Apply(row, p[0], DATA_ALIGN), target);
    }
  }

  lemma {:induction false} OwnTracks(own: seq<Operation>, position: nat, sh: Shadow, w: Wraps, st: CfaState, row: Row,
                                     m: Frames, entry: int, target: nat)
    returns (w': Wraps)
    requires AllWellFormed(own) && SortedByOffset(own) && Tracks(sh, w, st, row, m, entry)
    requires OwnProgram(own, position, st).Some?
    requires own != [] ==> position <= own[0].codeOffset
    requires position <= target
    ensures Tracks(ShadeAll(sh, Executed(own, target)), w', NextAll(Executed(own, target), st),
                   RowIn(OwnProgram(own, position, st).value, position, row, target),
                   Run(m, Executed(own, target)), entry)
    decreases |own|
  {
    w' := w;
    if own != [] {
      var op := own[0];
      var first := Emitted(op, st).value;
      var more := OwnProgram(own[1..], op.codeOffset, Next(op, st)).value;
      var jump := Advance(op.codeOffset - position);
      Assoc(jump, first, more);
      if op.codeOffset > target {
        assert (jump + (first + more))[0] == AdvanceLoc(op.codeOffset - position);
      } else {
        StepTracks(op, sh, w, st, row, m, entry);
        w' := OwnTracks(own[1..], op.codeOffset, Shade(sh, op), MoreWraps(op, st, w), Next(op, st),
                        ApplyAll(first, row), Step(m, op), entry, target);
        ExecutedFirst(own, target, sh, st, m);
        RowAfterFirst(own, position, st, row, target);
      }
    }
  }

  /** A due operation's instructions, then the rest of the program from its offset on. */
  lemma {:induction false} RowAfterFirst(own: seq<Operation>, position: nat, st: CfaState, row: Row, target: nat)
    requires own != [] && OwnProgram(own, position, st).Some? && position <= own[0].codeOffset <= target
    requires AllWellFormed(own)
    ensures Emitted(own[0], st).Some? && OwnProgram(own[1..], own[0].codeOffset, Next(own[0], st)).Some?
    ensures var more := OwnProgram(own[1..], own[0].codeOffset, Next(own[0], st)).value;
            RowIn(OwnProgram(own, position, st).value, position, row, target)
            == RowIn(more, own[0].codeOffset, ApplyAll(Emitted(own[0], st).value, row), target)
  {
    var op := own[0];
    var first := Emitted(op, st).value;
    var more := OwnProgram(own[1..], op.codeOffset, Next(op, st)).value;
    var jump := Advance(op.codeOffset - position);
    Assoc(jump, first, more);
    AfterJump(jump, op.codeOffset - position, first + more, position, row, target);
    EmittedNoAdvance(op, st);
    RowInAppend(first, more, op.codeOffset, row, target);
  }

  lemma {:induction false} ExecutedFirst(own: seq<Operation>, target: nat, sh: Shadow, st: CfaState, m: Frames)
    requires own != [] && own[0].codeOffset <= target
    ensures var later := Executed(own[1..], target);
            && ShadeAll(sh, Executed(own, target)) == ShadeAll(Shade(sh, own[0]), later)
            && NextAll(Executed(own, target), st) == NextAll(later, Next(own[0], st))
            && Run(m, Executed(own, target)) == Run(Step(m, own[0]), later)
  {
    assert Executed(own, target)[1..] == Executed(own[1..], target);
  }

  lemma {:induction false} AfterJump(jump: Program, delta: nat, rest: Program, position: nat, row: Row, target: nat)
    requires delta < 0x100 && jump == Advance(delta) && position + delta <= target
    ensures RowIn(jump + rest, position, row, target) == RowIn(rest, position + delta, row, target)
  {
    if delta == 0 {
      assert jump + rest == rest;
    } else {
      assert (jump + rest)[1..] == rest;
    }
  }

  lemma {:induction false} TrailingNops(p: Program, n: nat, loc: nat, row: Row, target: nat)
    ensures RowIn(p + Nops(n), loc, row, target) == RowIn(p, loc, row, target)
    decreases |p|
  {
    if p == [] {
      assert p + Nops(n) == Nops(n);
      RowAtNops(n, row, DATA_ALIGN, loc, target);
    } else {
      assert (p + Nops(n))[1..] == p[1..] + Nops(n);
      if p[0].AdvanceLoc? {
        if loc + p[0].delta <= target {
          TrailingNops(p[1..], n, loc + p[0].delta, row, target);
        }
      } else {
        TrailingNops(p[1..], n, loc, Apply(row, p[0], DATA_ALIGN), target);
      }
    }
  }

  // ----- when the assumptions were right

  predicate HasFrame(ops: seq<Operation>) { exists i :: 0 <= i < |ops| && ops[i].kind == Frame }

  function StoredRegister(op: Operation): Option<nat> {
    match op.kind
    case Push => Some(op.first)
    case Save => Some(op.first)
    case Machine => Some(RIP)
    case _ => None
  }

  predicate Stores(ops: seq<Operation>, reg: nat) { exists i :: 0 <= i < |ops| && StoredRegister(ops[i]) == Some(reg) }

  predicate NoMachine(ops: seq<Operation>) { forall i :: 0 <= i < |ops| ==> ops[i].kind != Machine }

  /** What was set up before position q is set up again after it. */
  predicate Redone(ops: seq<Operation>, q: nat)
    requires q < |ops|
  {
    && (HasFrame(ops[..q]) ==> HasFrame(ops[q + 1..]))
    && forall i :: 0 <= i < q && StoredRegister(ops[i]).Some? ==> Stores(ops[q + 1..], StoredRegister(ops[i]).value)
  }

  /**
   * A machine frame does no harm when nothing has moved the stack pointer before it and the frame register and every
   * register saved before it are set up again after it. A machine frame that comes first is of that kind.
   */
  predicate MachineSettled(ops: seq<Operation>) {
    forall q :: 0 <= q < |ops| && ops[q].kind == Machine ==> TotalUse(ops[..q]) == 0 && Redone(ops, q)
  }

  lemma {:induction false} ShadeAppend(s: Shadow, a: seq<Operation>, b: seq<Operation>)
    ensures ShadeAll(s, a + b) == ShadeAll(ShadeAll(s, a), b)
    decreases |a|
  {
    if a == [] {
      assert a + b == b;
    } else {
      assert (a + b)[1..] == a[1..] + b;
      ShadeAppend(Shade(s, a[0]), a[1..], b);
    }
  }

  lemma {:induction false} StoresCons(ops: seq<Operation>, reg: nat)
    requires ops != []
    ensures Stores(ops, reg) <==> StoredRegister(ops[0]) == Some(reg) || Stores(ops[1..], reg)
  {
    if Stores(ops, reg) && StoredRegister(ops[0]) != Some(reg) {
      var i :| 0 <= i < |ops| && StoredRegister(ops[i]) == Some(reg);
      assert ops[1..][i - 1] == ops[i];
    }
    if Stores(ops[1..], reg) {
      var i :| 0 <= i < |ops[1..]| && StoredRegister(ops[1..][i]) == Some(reg);
      assert ops[i + 1] == ops[1..][i];
    }
  }

  lemma {:induction false} FrameCons(ops: seq<Operation>)
    requires ops != []
    ensures HasFrame(ops) <==> ops[0].kind == Frame || HasFrame(ops[1..])
  {
    if HasFrame(ops) && ops[0].kind != Frame {
      var i :| 0 <= i < |ops| && ops[i].kind == Frame;
      assert ops[1..][i - 1] == ops[i];
    }
    if HasFrame(ops[1..]) {
      var i :| 0 <= i < |ops[1..]| && ops[1..][i].kind == Frame;
      assert ops[i + 1] == ops[1..][i];
    }
  }

  /** Without machine frames the assumed frame top never changes. */
  lemma {:induction false} ShadePlain(s: Shadow, ops: seq<Operation>)
    requires NoMachine(ops)
    ensures var e := ShadeAll(s, ops);
            && e.bias == s.bias && e.top == s.top && e.depth == s.depth + TotalUse(ops)
            && (e.framed <==> s.framed || HasFrame(ops))
            && e.frameBase == (if HasFrame(ops) then s.bias else s.frameBase)
            && forall r :: (r in e.bases <==> r in s.bases || Stores(ops, r))
                           && (r in e.bases ==> e.bases[r] == if Stores(ops, r) then s.bias else s.bases[r])
    decreases |ops|
  {
    if ops != [] {
      assert forall i :: 0 <= i < |ops[1..]| ==> ops[1..][i] == ops[i + 1];
      FrameCons(ops);
      ShadePlain(Shade(s, ops[0]), ops[1..]);
      var e := ShadeAll(s, ops);
      forall r
        ensures r in e.bases <==> r in s.bases || Stores(ops, r)
        ensures r in e.bases ==> e.bases[r] == if Stores(ops, r) then s.bias else s.bases[r]
      {
        StoresCons(ops, r);
      }
    }
  }

  /** The assumed frame top is never below the entry stack pointer. */
  lemma {:induction false} ShadeBounds(s: Shadow, ops: seq<Operation>)
    requires s.bias == 0 || s.bias == 8
    requires s.frameBase == 0 || s.frameBase == 8
    ensures var e := ShadeAll(s, ops);
            e.depth == s.depth + TotalUse(ops) && (e.bias == 0 || e.bias == 8) && (e.frameBase == 0 || e.frameBase == 8)
    decreases |ops|
  {
    if ops != [] {
      ShadeBounds(Shade(s, ops[0]), ops[1..]);
    }
  }

  lemma {:induction false} UseOf(ops: seq<Operation>, i: nat)
    requires i < |ops|
    ensures TotalUse(ops) == TotalUse(ops[..i]) + StackUse(ops[i]) + TotalUse(ops[i + 1..])
  {
    assert ops == ops[..i] + ([ops[i]] + ops[i + 1..]);
    TotalUseAppend(ops[..i], [ops[i]] + ops[i + 1..]);
    assert ([ops[i]] + ops[i + 1..])[1..] == ops[i + 1..];
  }

  lemma {:induction false} NoUseNoMachine(ops: seq<Operation>)
    requires AllWellFormed(ops) && TotalUse(ops) == 0
    ensures NoMachine(ops)
  {
    forall i | 0 <= i < |ops| ensures ops[i].kind != Machine {
      UseOf(ops, i);
    }
  }

  /** A run cut at a machine frame. */
  lemma {:induction false} CutAt(ops: seq<Operation>, q: nat)
    requires q < |ops|
    ensures ShadeAll(AT_ENTRY, ops) == ShadeAll(Shade(ShadeAll(AT_ENTRY, ops[..q]), ops[q]), ops[q + 1..])
  {
    assert ops == ops[..q] + ([ops[q]] + ops[q + 1..]);
    ShadeAppend(AT_ENTRY, ops[..q], [ops[q]] + ops[q + 1..]);
    assert ([ops[q]] + ops[q + 1..])[1..] == ops[q + 1..];
  }

  predicate LastMachine(ops: seq<Operation>, q: nat) { q < |ops| && ops[q].kind == Machine && NoMachine(ops[q + 1..]) }

  /** With nothing on the stack before it, the assumptions that survive are those made before it and not redone. */
  lemma {:induction false} AfterMachine(ops: seq<Operation>, q: nat)
    requires AllWellFormed(ops) && LastMachine(ops, q) && TotalUse(ops[..q]) == 0
    ensures var e, a, b := ShadeAll(AT_ENTRY, ops), ops[..q], ops[q + 1..];
            && e.top == 0 && CfaBase(e) == (if HasFrame(a) && !HasFrame(b) then 8 else 0)
            && forall r :: (r in e.bases <==> r == RIP || Stores(a, r) || Stores(b, r))
                           && (r in e.bases ==> e.bases[r] == if r != RIP && !Stores(b, r) then 8 else 0)
  {
    var a, b := ops[..q], ops[q + 1..];
    NoUseNoMachine(a);
    CutAt(ops, q);
    ShadePlain(AT_ENTRY, a);
    ShadePlain(Shade(ShadeAll(AT_ENTRY, a), ops[q]), b);
  }

  lemma {:induction false} OnlyReturnColumn(ops: seq<Operation>, q: nat, i: nat)
    requires AllWellFormed(ops) && i < q <= |ops| && NoMachine(ops[..q])
    ensures StoredRegister(ops[i]) != Some(RIP)
  {
    assert ops[..q][i] == ops[i];
  }

  lemma {:induction false} RedoneIff(ops: seq<Operation>, q: nat)
    requires AllWellFormed(ops) && LastMachine(ops, q) && TotalUse(ops[..q]) == 0
    ensures Settled(ShadeAll(AT_ENTRY, ops)) <==> Redone(ops, q)
  {
    var e, a, b := ShadeAll(AT_ENTRY, ops), ops[..q], ops[q + 1..];
    AfterMachine(ops, q);
    NoUseNoMachine(a);
    SameNearby(8, 0);
    SameNearby(0, 0);
    if Settled(e) {
      forall i | 0 <= i < q && StoredRegister(ops[i]).Some? ensures Stores(b, StoredRegister(ops[i]).value) {
        assert a[i] == ops[i];
        OnlyReturnColumn(ops, q, i);
        assert Stores(a, StoredRegister(ops[i]).value);
      }
    }
    if Redone(ops, q) {
      forall r | r in e.bases ensures e.bases[r] == 0 {
        if Stores(a, r) {
          var i :| 0 <= i < |a| && StoredRegister(a[i]) == Some(r);
          assert ops[i] == a[i];
        }
      }
    }
  }

  /** Anything on the stack before the last machine frame leaves the frame top below every assumption. */
  lemma {:induction false} UseBeforeMachine(ops: seq<Operation>, q: nat)
    requires AllWellFormed(ops) && LastMachine(ops, q) && FitsStack(ops) && TotalUse(ops[..q]) > 0
    ensures !Settled(ShadeAll(AT_ENTRY, ops))
  {
    var e := ShadeAll(AT_ENTRY, ops);
    UseOf(ops, q);
    CutAt(ops, q);
    ShadeBounds(AT_ENTRY, ops[..q]);
    ShadeBounds(AT_ENTRY, ops);
    ShadePlain(Shade(ShadeAll(AT_ENTRY, ops[..q]), ops[q]), ops[q + 1..]);
    SameNearby(CfaBase(e), e.top);
  }

  /** Only the last machine frame matters: an earlier one would itself use the stack before it. */
  lemma {:induction false} OneMachineOnly(ops: seq<Operation>, q: nat)
    requires AllWellFormed(ops) && LastMachine(ops, q)
    ensures MachineSettled(ops) <==> TotalUse(ops[..q]) == 0 && Redone(ops, q)
  {
    if TotalUse(ops[..q]) == 0 {
      NoUseNoMachine(ops[..q]);
      var a, b := ops[..q], ops[q + 1..];
      assert forall p :: 0 <= p < q ==> ops[p] == a[p];
      assert forall p :: q < p < |ops| ==> ops[p] == b[p - q - 1];
    }
  }

  lemma {:induction false} FindLastMachine(ops: seq<Operation>) returns (q: nat)
    requires !NoMachine(ops)
    ensures LastMachine(ops, q)
    decreases |ops|
  {
    var n := |ops| - 1;
    if ops[n].kind == Machine {
      q := n;
    } else {
      q := FindLastMachine(ops[..n]);
      var tail, shorter := ops[q + 1..], ops[..n][q + 1..];
      assert forall i :: 0 <= i < |tail| ==> tail[i] == if i < n - q - 1 then shorter[i] else ops[n];
    }
  }

  /** A settled list meets its assumptions, whatever its size. */
  lemma {:induction false} SettledSuffices(ops: seq<Operation>)
    requires AllWellFormed(ops) && MachineSettled(ops)
    ensures Settled(ShadeAll(AT_ENTRY, ops))
  {
    if NoMachine(ops) {
      ShadePlain(AT_ENTRY, ops);
    } else {
      var q := FindLastMachine(ops);
      OneMachineOnly(ops, q);
      RedoneIff(ops, q);
    }
  }

  /** And within an address space only a settled list does. */
  lemma {:induction false} SettledExactly(ops: seq<Operation>)
    requires AllWellFormed(ops) && FitsStack(ops)
    ensures Settled(ShadeAll(AT_ENTRY, ops)) <==> MachineSettled(ops)
  {
    if MachineSettled(ops) {
      SettledSuffices(ops);
    } else {
      var q := FindLastMachine(ops);
      OneMachineOnly(ops, q);
      if TotalUse(ops[..q]) == 0 {
        RedoneIff(ops, q);
      } else {
        UseBeforeMachine(ops, q);
      }
    }
  }

  // ----- the rows of a function

  /** The row that the program of a function, padded with nops, gives for an offset. */
  function RowOf(inherited: seq<Operation>, own: seq<Operation>, pad: nat, d: nat): Row
    requires FunctionProgram(inherited, own).Some?
  {
    RowIn(FunctionProgram(inherited, own).value + Nops(pad), 0, CIE_ROW, d)
  }

  /** What has executed at an offset of the function. */
  function Done(inherited: seq<Operation>, own: seq<Operation>, d: nat): seq<Operation> { inherited + Executed(own, d) }

  /** At offset d the row is right. */
  predicate RightAt(inherited: seq<Operation>, own: seq<Operation>, sp: int, pad: nat, d: nat)
    requires FunctionProgram(inherited, own).Some?
  {
    Faithful(RowOf(inherited, own, pad, d), Run(Entry(sp), Done(inherited, own, d)))
  }

  lemma {:induction false} WellFormedParts(inherited: seq<Operation>, own: seq<Operation>)
    requires AllWellFormed(inherited + own)
    ensures AllWellFormed(inherited) && AllWellFormed(own)
  {
    assert forall i :: 0 <= i < |inherited| ==> (inherited + own)[i] == inherited[i];
    assert forall i :: 0 <= i < |own| ==> (inherited + own)[|inherited| + i] == own[i];
  }

  lemma {:induction false} ExecutedPrefix(own: seq<Operation>, d: nat)
    ensures |Executed(own, d)| <= |own| && Executed(own, d) == own[..|Executed(own, d)|]
  {
    if own != [] && own[0].codeOffset <= d {
      ExecutedPrefix(own[1..], d);
    }
  }

  lemma {:induction false} DoneWellFormed(inherited: seq<Operation>, own: seq<Operation>, d: nat)
    requires AllWellFormed(inherited + own)
    ensures AllWellFormed(Done(inherited, own, d)) && TotalUse(Done(inherited, own, d)) <= TotalUse(inherited + own)
  {
    ExecutedPrefix(own, d);
    var n := |Executed(own, d)|;
    assert inherited + own == Done(inherited, own, d) + own[n..];
    WellFormedParts(Done(inherited, own, d), own[n..]);
    TotalUseAppend(Done(inherited, own, d), own[n..]);
  }

  /** The row at an offset follows the shadow of what has executed there. */
  lemma {:induction false} RowTracks(inherited: seq<Operation>, own: seq<Operation>, sp: int, pad: nat, d: nat)
    requires AllWellFormed(inherited + own) && SortedByOffset(own) && FunctionProgram(inherited, own).Some?
    ensures RightAt(inherited, own, sp, pad, d) <==> Settled(ShadeAll(AT_ENTRY, Done(inherited, own, d)))
  {
    WellFormedParts(inherited, own);
    EntryTracks(sp);
    var w := RunTracks(inherited, AT_ENTRY, NO_WRAPS, INITIAL, CIE_ROW, Entry(sp), sp);
    var p := EmittedAll(inherited, INITIAL).value;
    var sh, st, row, m := ShadeAll(AT_ENTRY, inherited), NextAll(inherited, INITIAL), ApplyAll(p, CIE_ROW),
      Run(Entry(sp), inherited);
    var w' := OwnTracks(own, 0, sh, w, st, row, m, sp, d);
    EmittedAllNoAdvance(inherited, INITIAL);
    RowInAppend(p, OwnProgram(own, 0, st).value, 0, CIE_ROW, d);
    TrailingNops(FunctionProgram(inherited, own).value, pad, 0, CIE_ROW, d);
    RunAppend(Entry(sp), inherited, Executed(own, d));
    ShadeAppend(AT_ENTRY, inherited, Executed(own, d));
    FaithfulIffSettled(ShadeAll(sh, Executed(own, d)), w', NextAll(Executed(own, d), st), RowOf(inherited, own, pad, d),
                       Run(m, Executed(own, d)), sp);
  }

  /**
   * Main result. Take any inherited and own operations the decoder can deliver. At every offset d of the function, if
   * machine frames are settled in what has executed there, the row that the compiled program (padded with nops) gives
   * for d computes the frame top, and sends every register to the slot it was last stored in.
   */
  lemma {:induction false} MeaningPreserved(inherited: seq<Operation>, own: seq<Operation>, sp: int, pad: nat, d: nat)
    requires AllWellFormed(inherited + own) && SortedByOffset(own) && FunctionProgram(inherited, own).Some?
    requires MachineSettled(Done(inherited, own, d))
    ensures RightAt(inherited, own, sp, pad, d)
  {
    RowTracks(inherited, own, sp, pad, d);
    DoneWellFormed(inherited, own, d);
    SettledSuffices(Done(inherited, own, d));
  }

  /** In an address space this condition is exact, offset by offset. */
  lemma {:induction false} RightExactly(inherited: seq<Operation>, own: seq<Operation>, sp: int, pad: nat, d: nat)
    requires AllWellFormed(inherited + own) && SortedByOffset(own) && FunctionProgram(inherited, own).Some?
    requires FitsStack(inherited + own)
    ensures RightAt(inherited, own, sp, pad, d) <==> MachineSettled(Done(inherited, own, d))
  {
    RowTracks(inherited, own, sp, pad, d);
    DoneWellFormed(inherited, own, d);
    SettledExactly(Done(inherited, own, d));
  }

  // ----- the condition read off the operations

  lemma {:induction false} ExecutedIs(own: seq<Operation>, d: nat, i: nat)
    requires SortedByOffset(own) && i < |own|
    ensures i < |Executed(own, d)| <==> own[i].codeOffset <= d
    decreases |own|
  {
    if own[0].codeOffset <= d && i > 0 {
      ExecutedIs(own[1..], d, i - 1);
    }
  }

  /**
   * How many operations have executed where operation q first has: its group ends there, and the inherited ones are a
   * group.
   */
  function GroupEnd(inherited: seq<Operation>, own: seq<Operation>, q: nat): (n: nat)
    requires q < |inherited| + |own|
    ensures n == |Done(inherited, own, GroupOffset(inherited, own, q))|
  {
    |inherited| + |Executed(own, GroupOffset(inherited, own, q))|
  }

  function GroupOffset(inherited: seq<Operation>, own: seq<Operation>, q: nat): nat
    requires q < |inherited| + |own|
  {
    if q < |inherited| then 0 else own[q - |inherited|].codeOffset
  }

  /** No machine frame has stack use before it, and what was set up before one is redone within its group. */
  predicate SettledInGroup(inherited: seq<Operation>, own: seq<Operation>, q: nat)
    requires q < |inherited| + |own|
  {
    var ops, end := inherited + own, GroupEnd(inherited, own, q);
    TotalUse(ops[..q]) == 0 && q < end <= |ops| && Redone(ops[..end], q)
  }

  predicate SettledInGroups(inherited: seq<Operation>, own: seq<Operation>) {
    forall q: nat :: q < |inherited| + |own| && (inherited + own)[q].kind == Machine ==>
           SettledInGroup(inherited, own, q)
  }

  lemma {:induction false} DonePrefix(inherited: seq<Operation>, own: seq<Operation>, d: nat)
    ensures |Done(inherited, own, d)| <= |inherited + own|
    ensures Done(inherited, own, d) == (inherited + own)[..|Done(inherited, own, d)|]
  {
    ExecutedPrefix(own, d);
  }

  /** Operation q has executed at offset d just when its group has. */
  lemma {:induction false} GroupDone(inherited: seq<Operation>, own: seq<Operation>, q: nat, d: nat)
    requires SortedByOffset(own) && q < |inherited| + |own|
    ensures q < GroupEnd(inherited, own, q)
    ensures q < |Done(inherited, own, d)| ==> GroupEnd(inherited, own, q) <= |Done(inherited, own, d)|
  {
    if q >= |inherited| {
      ExecutedIs(own, own[q - |inherited|].codeOffset, q - |inherited|);
      ExecutedIs(own, d, q - |inherited|);
    }
    if q < |Done(inherited, own, d)| {
      ExecutedGrows(own, GroupOffset(inherited, own, q), d);
    }
  }

  lemma {:induction false} ExecutedGrows(own: seq<Operation>, d: nat, e: nat)
    requires d <= e
    ensures |Executed(own, d)| <= |Executed(own, e)|
  {
    if own != [] && own[0].codeOffset <= d {
      ExecutedGrows(own[1..], d, e);
    }
  }

  lemma {:induction false} RedoneLater(ops: seq<Operation>, n: nat, q: nat)
    requires q < n <= |ops| && Redone(ops[..n], q)
    ensures Redone(ops, q)
  {
    var short, long := ops[..n][q + 1..], ops[q + 1..];
    assert ops[..n][..q] == ops[..q];
    assert forall i :: 0 <= i < |short| ==> short[i] == long[i];
    forall i | 0 <= i < q && StoredRegister(ops[i]).Some? ensures Stores(long, StoredRegister(ops[i]).value) {
      assert ops[..n][i] == ops[i];
      var j :| 0 <= j < |short| && StoredRegister(short[j]) == StoredRegister(ops[i]);
      assert long[j] == short[j];
    }
    if HasFrame(short) {
      var j :| 0 <= j < |short| && short[j].kind == Frame;
      assert long[j].kind == Frame;
    }
  }

  lemma {:induction false} GroupsSettle(inherited: seq<Operation>, own: seq<Operation>, d: nat)
    requires SortedByOffset(own) && SettledInGroups(inherited, own)
    ensures MachineSettled(Done(inherited, own, d))
  {
    var ops, done := inherited + own, Done(inherited, own, d);
    DonePrefix(inherited, own, d);
    forall q: nat | q < |done| && done[q].kind == Machine ensures TotalUse(done[..q]) == 0 && Redone(done, q) {
      assert ops[q] == done[q] && done[..q] == ops[..q];
      var end := GroupEnd(inherited, own, q);
      assert SettledInGroup(inherited, own, q);
      GroupDone(inherited, own, q, d);
      assert done[..end] == ops[..end];
      RedoneLater(done, end, q);
    }
  }

  lemma {:induction false} SettledGroups(inherited: seq<Operation>, own: seq<Operation>, q: nat)
    requires SortedByOffset(own) && q < |inherited| + |own| && (inherited + own)[q].kind == Machine
    requires MachineSettled(Done(inherited, own, GroupOffset(inherited, own, q)))
    ensures SettledInGroup(inherited, own, q)
  {
    var ops, done := inherited + own, Done(inherited, own, GroupOffset(inherited, own, q));
    DonePrefix(inherited, own, GroupOffset(inherited, own, q));
    GroupDone(inherited, own, q, 0);
    assert done[q] == ops[q] && done[..q] == ops[..q];
  }

  /**
   * The rows of a function are right at every offset exactly when no machine frame has stack use before it, and the
   * frame register and every register set up before one are set up again in the group of operations that shares its
   * code offset (the inherited operations and those at offset 0 being one group).
   */
  lemma {:induction false} FaithfulExactly(inherited: seq<Operation>, own: seq<Operation>, sp: int, pad: nat)
    requires AllWellFormed(inherited + own) && SortedByOffset(own) && FunctionProgram(inherited, own).Some?
    requires FitsStack(inherited + own)
    ensures (forall d: nat :: RightAt(inherited, own, sp, pad, d)) <==> SettledInGroups(inherited, own)
  {
    if SettledInGroups(inherited, own) {
      forall d: nat ensures RightAt(inherited, own, sp, pad, d) {
        GroupsSettle(inherited, own, d);
        RightExactly(inherited, own, sp, pad, d);
      }
    }
    if forall d: nat :: RightAt(inherited, own, sp, pad, d) {
      forall q: nat | q < |inherited| + |own| && (inherited + own)[q].kind == Machine
        ensures SettledInGroup(inherited, own, q)
      {
        RightExactly(inherited, own, sp, pad, GroupOffset(inherited, own, q));
        SettledGroups(inherited, own, q);
      }
    }
  }

  /** In particular when a machine frame, if there is one, is the very first operation. */
  lemma {:induction false} FirstIsSettled(inherited: seq<Operation>, own: seq<Operation>, d: nat)
    requires MachineOnlyFirst(inherited + own)
    ensures MachineSettled(Done(inherited, own, d))
  {
    DonePrefix(inherited, own, d);
    var done := Done(inherited, own, d);
    forall q: nat | q < |done| && done[q].kind == Machine ensures TotalUse(done[..q]) == 0 && Redone(done, q) {
      assert (inherited + own)[q] == done[q];
    }
  }
}
