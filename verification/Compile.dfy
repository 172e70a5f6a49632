/** apply_operation: one prolog operation becomes call-frame instructions (src/pe_sidecar.cpp:600-643). */
module Compile {
  import opened Bytes
  import opened Leb128
  import opened Wrappers
  import opened Prolog
  import opened CallFrame

  /** The compiler's running view of the frame: bytes below the frame top, and who holds the CFA. */
  datatype CfaState = CfaState(depth: U64, frame: bool, bias: U64)

  const INITIAL := CfaState(0, false, 8)
  const DATA_ALIGN: int := -8

  /** The row the CIE establishes: CFA = RSP + 8 with the return address just below it. */
  const CIE_ROW := Row(RSP, 8, map[RIP := -8])

  function Distance(st: CfaState): U64 { Wrap64(st.depth + st.bias) }

  function SlotRule(reg: nat, offset: int): Option<Program> {
    if offset % 8 != 0 then None else Some([SavedAt(reg, -(offset / 8))])
  }

  function Next(op: Operation, st: CfaState): CfaState {
    match op.kind
    case Push => st.(depth := Wrap64(st.depth + 8))
    case Alloc => st.(depth := Wrap64(st.depth + op.first))
    case Frame => st.(frame := true)
    case Save => st
    case Machine => st.(depth := Wrap64(st.depth + op.first), bias := 0)
  }

  /** The CFA follows the stack pointer until a frame register takes over. */
  function FollowStack(st: CfaState): Program {
    if st.frame then [] else [DefCfaOffset(Distance(st))]
  }

  /** The instructions for one operation; None is the exception the source throws. */
  function Emitted(op: Operation, st: CfaState): Option<Program> {
    var st' := Next(op, st);
    match op.kind
    case Push =>
      var rule :- SlotRule(op.first, -Signed64(Distance(st')));
      Some(FollowStack(st') + rule)
    case Alloc => Some(FollowStack(st'))
    case Frame =>
      if Distance(st) < op.second then None
      else Some([DefCfa(op.first, Distance(st) - op.second)])
    case Save => SlotRule(op.first, op.second - Signed64(Distance(st)))
    case Machine =>
      var rule :- SlotRule(RIP, -40);
      Some(FollowStack(st') + rule)
  }

  function NextAll(ops: seq<Operation>, st: CfaState): CfaState {
    if ops == [] then st else NextAll(ops[1..], Next(ops[0], st))
  }

  function EmittedAll(ops: seq<Operation>, st: CfaState): Option<Program> {
    if ops == [] then Some([])
    else
      var first :- Emitted(ops[0], st);
      var more :- EmittedAll(ops[1..], Next(ops[0], st));
      Some(first + more)
  }

  // ----- the imperative emitter

  method EmitOffset(out: ByteVector, reg: U32, offset: int) returns (ok: bool)
    requires -0x1_0000_0000_0000_0000 < offset < 0x1_0000_0000_0000_0000
    modifies out
    ensures ok == SlotRule(reg, offset).Some?
    ensures ok ==> out.bytes == old(out.bytes) + EncodeAll(SlotRule(reg, offset).value)
  {
    if offset % 8 != 0 {
      return false;
    }
    out.PushBack(0x11);
    AppendUleb(out, reg);
    AppendSleb(out, -(offset / 8));
    EncodeOne(SavedAt(reg, -(offset / 8)));
    Assoc(old(out.bytes) + [0x11], Uleb(reg), Sleb(-(offset / 8)));
    Assoc(old(out.bytes), [0x11], Uleb(reg) + Sleb(-(offset / 8)));
    Assoc([0x11], Uleb(reg), Sleb(-(offset / 8)));
    ok := true;
  }

  lemma {:induction false} EncodeOne(i: Instruction)
    requires Encodable(i)
    ensures EncodeAll([i]) == Encode(i)
  {
    assert EncodeAll([i]) == Encode(i) + EncodeAll([]);
  }

  method EmitCfaOffset(out: ByteVector, st: CfaState)
    modifies out
    ensures out.bytes == old(out.bytes) + EncodeAll(FollowStack(st))
  {
    if !st.frame {
      out.PushBack(0x0e);
      AppendUleb(out, Wrap64(st.depth + st.bias));
      EncodeOne(DefCfaOffset(Distance(st)));
      Assoc(old(out.bytes), [0x0e], Uleb(Distance(st)));
    }
  }

  /** Push and machine frames: the CFA moves with the stack pointer, then a slot is recorded. */
  method EmitCfaAndSlot(out: ByteVector, st: CfaState, reg: U32, offset: int) returns (ok: bool)
    requires -0x1_0000_0000_0000_0000 < offset < 0x1_0000_0000_0000_0000
    modifies out
    ensures ok == SlotRule(reg, offset).Some?
    ensures ok ==> out.bytes == old(out.bytes) + EncodeAll(FollowStack(st) + SlotRule(reg, offset).value)
  {
    EmitCfaOffset(out, st);
    ok := EmitOffset(out, reg, offset);
    if ok {
      EncodeAllAppend(FollowStack(st), SlotRule(reg, offset).value);
      Assoc(old(out.bytes), EncodeAll(FollowStack(st)), EncodeAll(SlotRule(reg, offset).value));
    }
  }

  method EmitDefCfa(out: ByteVector, reg: U32, offset: U64)
    modifies out
    ensures out.bytes == old(out.bytes) + EncodeAll([DefCfa(reg, offset)])
  {
    out.PushBack(0x0c);
    AppendUleb(out, reg);
    AppendUleb(out, offset);
    EncodeOne(DefCfa(reg, offset));
    Assoc(old(out.bytes) + [0x0c], Uleb(reg), Uleb(offset));
    Assoc(old(out.bytes), [0x0c], Uleb(reg) + Uleb(offset));
    Assoc([0x0c], Uleb(reg), Uleb(offset));
  }

  lemma {:induction false} EmittedEncodable(op: Operation, st: CfaState)
    ensures Emitted(op, st).Some? ==> AllEncodable(Emitted(op, st).value)
  {
  }

  method ApplyOperation(out: ByteVector, op: Operation, st: CfaState) returns (ok: bool, st': CfaState)
    modifies out
    ensures ok == Emitted(op, st).Some?
    ensures ok ==> st' == Next(op, st)
    ensures ok ==> AllEncodable(Emitted(op, st).value)
                   && out.bytes == old(out.bytes) + EncodeAll(Emitted(op, st).value)
  {
    EmittedEncodable(op, st);
    st' := st;
    ok := true;
    match op.kind {
      case Push =>
        st' := st'.(depth := Wrap64(st'.depth + 8));
        ok := EmitCfaAndSlot(out, st', op.first, -Signed64(Distance(st')));
      case Alloc =>
        st' := st'.(depth := Wrap64(st'.depth + op.first));
        EmitCfaOffset(out, st');
      case Frame =>
        if Distance(st') < op.second {
          return false, st';
        }
        st' := st'.(frame := true);
        EmitDefCfa(out, op.first, Distance(st') - op.second);
      case Save =>
        ok := EmitOffset(out, op.first, op.second - Signed64(Distance(st')));
      case Machine =>
        st' := st'.(bias := 0, depth := Wrap64(st'.depth + op.first));
        ok := EmitCfaAndSlot(out, st', RIP, -40);
    }
  }

  // ----- when compilation succeeds

  /** Stack depth and bias stay multiples of eight: slots are always factorable by the data alignment. */
  predicate Aligned(st: CfaState) { st.depth % 8 == 0 && st.bias % 8 == 0 }

  lemma {:induction false} DistanceAligned(st: CfaState)
    requires Aligned(st)
    ensures Distance(st) % 8 == 0 && Signed64(Distance(st)) % 8 == 0
  {
    WrapAligned(st.depth + st.bias);
  }

  lemma {:induction false} WrapAligned(x: int)
    requires x % 8 == 0
    ensures Wrap64(x) % 8 == 0
  {
    var q, r := x / 0x1_0000_0000_0000_0000, x % 0x1_0000_0000_0000_0000;
    SameResidue(x, r, 0x2000_0000_0000_0000 * q);
  }

  lemma {:induction false} SameResidue(x: int, r: int, z: int)
    requires x == 8 * z + r
    ensures x % 8 == r % 8
  {
  }

  lemma {:induction false} NextAligned(op: Operation, st: CfaState)
    requires WellFormed(op) && Aligned(st)
    ensures Aligned(Next(op, st))
  {
    WrapAligned(st.depth + StackUse(op));
  }

  lemma {:induction false} AlwaysAligned(ops: seq<Operation>, st: CfaState)
    requires AllWellFormed(ops) && Aligned(st)
    ensures Aligned(NextAll(ops, st)) && Distance(NextAll(ops, st)) % 8 == 0
  {
    if ops != [] {
      NextAligned(ops[0], st);
      AlwaysAligned(ops[1..], Next(ops[0], st));
    }
  }

  /** The two complaints: a save off the eight-byte grid, and a frame register above the frame top. */
  predicate Compilable(ops: seq<Operation>) {
    forall i :: 0 <= i < |ops| ==>
      && (ops[i].kind == Save ==> ops[i].second % 8 == 0)
      && (ops[i].kind == Frame ==> ops[i].second <= Distance(NextAll(ops[..i], INITIAL)))
  }

  lemma {:induction false} EmittedAllAppend(a: seq<Operation>, b: seq<Operation>, st: CfaState)
    ensures EmittedAll(a + b, st).Some? <==> EmittedAll(a, st).Some? && EmittedAll(b, NextAll(a, st)).Some?
    ensures EmittedAll(a + b, st).Some? ==>
              EmittedAll(a + b, st).value == EmittedAll(a, st).value + EmittedAll(b, NextAll(a, st)).value
    decreases |a|
  {
    if a == [] {
      assert a + b == b;
    } else {
      var st' := Next(a[0], st);
      assert (a + b)[0] == a[0] && (a + b)[1..] == a[1..] + b;
      EmittedAllAppend(a[1..], b, st');
      if EmittedAll(a + b, st).Some? {
        Assoc(Emitted(a[0], st).value, EmittedAll(a[1..], st').value, EmittedAll(b, NextAll(a, st)).value);
      }
    }
  }

  lemma {:induction false} EmittedOne(op: Operation, st: CfaState)
    ensures EmittedAll([op], st) == Emitted(op, st)
  {
    assert [op][1..] == [];
    if Emitted(op, st).Some? {
      assert Emitted(op, st).value + [] == Emitted(op, st).value;
    }
  }

  lemma {:induction false} EmittedIff(op: Operation, st: CfaState)
    requires WellFormed(op) && Aligned(st)
    ensures Emitted(op, st).Some? <==>
            (op.kind == Save ==> op.second % 8 == 0) && (op.kind == Frame ==> op.second <= Distance(st))
  {
    var st' := Next(op, st);
    match op.kind
    case Push =>
      NextAligned(op, st);
      DistanceAligned(st');
      SameResidue(-Signed64(Distance(st')), 0, -(Signed64(Distance(st')) / 8));
      assert SlotRule(op.first, -Signed64(Distance(st'))).Some?;
    case Save =>
      DistanceAligned(st);
      var s := Signed64(Distance(st));
      SameResidue(op.second, op.second - s, s / 8);
    case Machine =>
      assert SlotRule(RIP, -40).Some?;
    case _ =>
  }

  lemma {:induction false} CompilesIff(ops: seq<Operation>)
    requires AllWellFormed(ops)
    ensures EmittedAll(ops, INITIAL).Some? <==> Compilable(ops)
    decreases |ops|
  {
    if ops != [] {
      var n := |ops| - 1;
      var init, last := ops[..n], ops[n];
      assert ops == init + [last];
      CompilesIff(init);
      EmittedAllAppend(init, [last], INITIAL);
      AlwaysAligned(init, INITIAL);
      EmittedIff(last, NextAll(init, INITIAL));
      EmittedOne(last, NextAll(init, INITIAL));
      assert forall i :: 0 <= i < n ==> init[..i] == ops[..i] && init[i] == ops[i];
    }
  }
}
