/** Prolog operations and what executing them does to the stack of the running function. */
module Prolog {
  import opened Bytes

  datatype OpKind = Push | Alloc | Frame | Save | Machine

  datatype Operation = Operation(codeOffset: U8, kind: OpKind, first: U32, second: U32)

  /** DWARF numbers of the stack pointer and of the return-address column. */
  const RSP: nat := 7
  const RIP: nat := 16

  /**
   * The abstract prolog machine, in absolute addresses: the stack pointer, the frame registers set so far,
   * where each register was last stored, and the frame top, which is the address just above the return
   * address or just above the hardware machine frame.
   */
  datatype Frames = Frames(sp: int, frameTop: int, regs: map<nat, int>, saved: map<nat, int>)

  /** On entry the return address is on top of the stack. */
  function Entry(sp: int): Frames {
    Frames(sp, sp + 8, map[], map[RIP := sp])
  }

  function Step(m: Frames, op: Operation): Frames {
    match op.kind
    case Push => m.(sp := m.sp - 8, saved := m.saved[op.first as nat := m.sp - 8])
    case Alloc => m.(sp := m.sp - op.first)
    case Frame => m.(regs := m.regs[op.first as nat := m.sp + op.second])
    case Save => m.(saved := m.saved[op.first as nat := m.sp + op.second])
    case Machine =>
      // the processor pushes SS, RSP, RFLAGS, CS, RIP and perhaps an error code
      m.(sp := m.sp - op.first, frameTop := m.sp, saved := m.saved[RIP := m.sp - 40])
  }

  function Run(m: Frames, ops: seq<Operation>): Frames
    decreases |ops|
  {
    if ops == [] then m else Run(Step(m, ops[0]), ops[1..])
  }

  lemma {:induction false} RunAppend(m: Frames, a: seq<Operation>, b: seq<Operation>)
    ensures Run(m, a + b) == Run(Run(m, a), b)
    decreases |a|
  {
    if a == [] {
      assert a + b == b;
    } else {
      assert (a + b)[1..] == a[1..] + b;
      RunAppend(Step(m, a[0]), a[1..], b);
    }
  }

  /** How far an operation moves the stack pointer. */
  function StackUse(op: Operation): nat {
    match op.kind
    case Push => 8
    case Alloc => op.first
    case Machine => op.first
    case _ => 0
  }

  function TotalUse(ops: seq<Operation>): nat {
    if ops == [] then 0 else StackUse(ops[0]) + TotalUse(ops[1..])
  }

  lemma {:induction false} TotalUseAppend(a: seq<Operation>, b: seq<Operation>)
    ensures TotalUse(a + b) == TotalUse(a) + TotalUse(b)
  {
    if a == [] {
      assert a + b == b;
    } else {
      assert (a + b)[1..] == a[1..] + b;
      TotalUseAppend(a[1..], b);
    }
  }

  /** The frame of these operations fits below 2^63, as it must to lie in any address space. */
  predicate FitsStack(ops: seq<Operation>) { TotalUse(ops) + 8 < 0x8000_0000_0000_0000 }

  /** What the unwind decoder guarantees of one operation. */
  predicate WellFormed(op: Operation) {
    && (op.kind == Push ==> op.first < RIP && op.first != RSP)
    && (op.kind == Alloc ==> op.first > 0 && op.first % 8 == 0)
    && (op.kind == Frame ==> op.first < RIP && op.first != RSP)
    && (op.kind == Save ==> op.first != RIP && op.first != RSP)
    && (op.kind == Machine ==> op.first == 40 || op.first == 48)
  }

  predicate AllWellFormed(ops: seq<Operation>) { forall i :: 0 <= i < |ops| ==> WellFormed(ops[i]) }

  predicate SortedByOffset(ops: seq<Operation>) {
    forall i, j :: 0 <= i < j < |ops| ==> ops[i].codeOffset <= ops[j].codeOffset
  }

  /** A machine frame, if there is one, is the very first operation. */
  predicate MachineOnlyFirst(ops: seq<Operation>) {
    forall i :: 1 <= i < |ops| ==> ops[i].kind != Machine
  }

  /** The operations that have executed once the instruction pointer is d bytes into the function. */
  function Executed(ops: seq<Operation>, d: nat): seq<Operation> {
    if ops == [] || ops[0].codeOffset > d then [] else [ops[0]] + Executed(ops[1..], d)
  }
}
