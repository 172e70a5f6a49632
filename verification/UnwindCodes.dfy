/** UNWIND_CODE arrays: how the sidecar decodes them, and every legal way to encode an operation list. */
module UnwindCodes {
  import opened Bytes
  import opened Wrappers
  import opened Prolog
  import opened WindowsUnwinder

  /** The fields of UNWIND_INFO that decoding the codes depends on. */
  datatype Header = Header(prologSize: U8, chained: bool, frameRegister: Nibble, frameOffset: U8)

  const REGISTER_MAP: seq<nat> := [0, 2, 1, 3, 7, 6, 4, 5, 8, 9, 10, 11, 12, 13, 14, 15]

  predicate Nonvolatile(reg: int) { reg == 3 || reg == 5 || reg == 6 || reg == 7 || reg >= 12 }

  predicate ValidHeader(h: Header) {
    && (h.frameRegister == 0 ==> h.frameOffset == 0)
    && (h.frameRegister != 0 ==> Nonvolatile(h.frameRegister))
  }

  // ----- decoding

  /** One decoded code and the number of operand slots it used. */
  datatype Decoded = Decoded(op: Operation, operands: nat)

  /** The code at the front of the remaining slots; None where the source throws. */
  function DecodeOne(h: Header, s: seq<Byte>): (r: Option<Decoded>)
    requires |s| >= 2
    ensures r.Some? ==> 2 * (r.value.operands + 1) <= |s|
  {
    var offset, opcode, info := s[0], s[1] % 16, s[1] / 16;
    if offset > h.prologSize || (offset == 0 && !h.chained) then None
    else if opcode == 0 then
      if Nonvolatile(info) then Some(Decoded(Operation(offset, Push, REGISTER_MAP[info], 0), 0)) else None
    else if opcode == 1 then DecodeLargeAlloc(offset, info, s)
    else if opcode == 2 then Some(Decoded(Operation(offset, Alloc, info * 8 + 8, 0), 0))
    else if opcode == 3 then
      if h.frameRegister == 0 then None
      else Some(Decoded(Operation(offset, Frame, REGISTER_MAP[h.frameRegister], h.frameOffset), 0))
    else if opcode == 4 || opcode == 5 then
      if Nonvolatile(info) then DecodeSave(offset, REGISTER_MAP[info], opcode == 5, 8, s) else None
    else if opcode == 8 || opcode == 9 then
      if info >= 6 then DecodeSave(offset, 17 + info, opcode == 9, 16, s) else None
    else if opcode == 10 then
      if info <= 1 then Some(Decoded(Operation(offset, Machine, 40 + info * 8, 0), 0)) else None
    else None
  }

  function DecodeLargeAlloc(offset: U8, info: int, s: seq<Byte>): Option<Decoded>
    requires |s| >= 2
  {
    if info == 0 && |s| >= 4 then
      var size := U16At(s, 2) * 8;
      if size != 0 then Some(Decoded(Operation(offset, Alloc, size, 0), 1)) else None
    else if info == 1 && |s| >= 6 then
      var size := U32At(s, 2);
      if size != 0 && size % 8 == 0 then Some(Decoded(Operation(offset, Alloc, size, 0), 2)) else None
    else None
  }

  function DecodeSave(offset: U8, reg: U32, far: bool, scale: int, s: seq<Byte>): Option<Decoded>
    requires |s| >= 2 && (scale == 8 || scale == 16)
  {
    if !far && |s| >= 4 then Some(Decoded(Operation(offset, Save, reg, U16At(s, 2) * scale), 1))
    else if far && |s| >= 6 then Some(Decoded(Operation(offset, Save, reg, U32At(s, 2)), 2))
    else None
  }

  /** All codes in array order. */
  function DecodeList(h: Header, s: seq<Byte>): Option<seq<Operation>>
    requires |s| % 2 == 0
    decreases |s|
  {
    if s == [] then Some([])
    else
      var one :- DecodeOne(h, s);
      var more :- DecodeList(h, s[2 * (one.operands + 1)..]);
      Some([one.op] + more)
  }

  predicate Descending(ops: seq<Operation>) {
    forall i :: 1 <= i < |ops| ==> ops[i - 1].codeOffset >= ops[i].codeOffset
  }

  function Reverse<T>(s: seq<T>): (r: seq<T>)
    ensures |r| == |s| && forall i :: 0 <= i < |s| ==> r[i] == s[|s| - 1 - i]
  {
    if s == [] then [] else Reverse(s[1..]) + [s[0]]
  }

  /** The record's operations in prolog order. */
  function DecodeCodes(h: Header, s: seq<Byte>): Option<seq<Operation>>
    requires |s| % 2 == 0
  {
    var ops :- DecodeList(h, s);
    if Descending(ops) then Some(Reverse(ops)) else None
  }

  /** Decoding the whole array is having done this much and decoding the rest. */
  predicate Progress(h: Header, codes: seq<Byte>, rest: seq<Byte>, done: seq<Operation>)
    requires |codes| % 2 == 0 && |rest| % 2 == 0
  {
    && (DecodeList(h, codes).Some? <==> DecodeList(h, rest).Some?)
    && (DecodeList(h, codes).Some? ==> DecodeList(h, codes).value == done + DecodeList(h, rest).value)
  }

  lemma {:induction false} ProgressStep(h: Header, codes: seq<Byte>, rest: seq<Byte>, done: seq<Operation>)
    requires |codes| % 2 == 0 && |rest| % 2 == 0 && rest != [] && Progress(h, codes, rest, done)
    ensures DecodeOne(h, rest).None? ==> DecodeList(h, codes).None?
    ensures DecodeOne(h, rest).Some? ==>
              var one := DecodeOne(h, rest).value;
              Progress(h, codes, rest[2 * (one.operands + 1)..], done + [one.op])
  {
    if DecodeOne(h, rest).Some? {
      var one := DecodeOne(h, rest).value;
      var later := DecodeList(h, rest[2 * (one.operands + 1)..]);
      if later.Some? {
        Assoc(done, [one.op], later.value);
      }
    }
  }

  method CheckDescending(operations: seq<Operation>) returns (ok: bool)
    ensures ok == Descending(operations)
  {
    var index := 1;
    while index < |operations|
      invariant 1 <= index
      invariant forall i :: 1 <= i < index && i < |operations| ==>
                operations[i - 1].codeOffset >= operations[i].codeOffset
    {
      if operations[index - 1].codeOffset < operations[index].codeOffset {
        return false;
      }
      index := index + 1;
    }
    ok := true;
  }

  /** The operation at a slot, and the slot after its operands. */
  method DecodeSlot(h: Header, codes: seq<Byte>, slot: nat, done: seq<Operation>)
    returns (ok: bool, next: nat, operations: seq<Operation>)
    requires |codes| % 2 == 0 && 2 * slot < |codes| && Progress(h, codes, codes[2 * slot..], done)
    ensures !ok ==> DecodeList(h, codes).None?
    ensures ok ==> slot < next && 2 * next <= |codes| && Progress(h, codes, codes[2 * next..], operations)
  {
    var rest := codes[2 * slot..];
    ProgressStep(h, codes, rest, done);
    var one := DecodeOne(h, rest);
    if one.None? {
      return false, slot, done;
    }
    next := slot + one.value.operands + 1;
    TailOfTail(codes, 2 * slot, 2 * (one.value.operands + 1), 2 * next);
    operations := done + [one.value.op];
    ok := true;
  }

  /** The decode loop, slot by slot over the mapped image. */
  method DecodeOperations(image: seq<Byte>, rva: nat, codeCount: U8, h: Header)
    returns (ok: bool, operations: seq<Operation>)
    requires rva + 4 + 2 * codeCount <= |image|
    ensures ok == DecodeCodes(h, image[rva + 4..rva + 4 + 2 * codeCount]).Some?
    ensures ok ==> operations == DecodeCodes(h, image[rva + 4..rva + 4 + 2 * codeCount]).value
  {
    var codes := image[rva + 4..rva + 4 + 2 * codeCount];
    operations := [];
    var slot: nat := 0;
    assert codes[0..] == codes;
    while slot < codeCount
      invariant slot <= codeCount
      invariant Progress(h, codes, codes[2 * slot..], operations)
    {
      ok, slot, operations := DecodeSlot(h, codes, slot, operations);
      if !ok {
        return false, [];
      }
    }
    assert operations + [] == operations;
    ok := CheckDescending(operations);
    operations := Reverse(operations);
  }

  lemma {:induction false} TailOfTail(s: seq<Byte>, i: nat, j: nat, k: nat)
    requires k == i + j <= |s|
    ensures s[i..][j..] == s[k..]
  {
  }

  // ----- what a decoded list is like

  lemma {:induction false} DecodedListWellFormed(h: Header, s: seq<Byte>)
    requires |s| % 2 == 0 && ValidHeader(h) && DecodeList(h, s).Some?
    ensures AllWellFormed(DecodeList(h, s).value)
    ensures forall op :: op in DecodeList(h, s).value && op.kind == Frame ==>
                           op.first == REGISTER_MAP[h.frameRegister] && op.second == h.frameOffset
    decreases |s|
  {
    if s != [] {
      var one := DecodeOne(h, s).value;
      DecodedOneWellFormed(h, s);
      DecodedListWellFormed(h, s[2 * (one.operands + 1)..]);
    }
  }

  lemma {:induction false} DecodedOneWellFormed(h: Header, s: seq<Byte>)
    requires |s| >= 2 && ValidHeader(h) && DecodeOne(h, s).Some?
    ensures WellFormed(DecodeOne(h, s).value.op)
    ensures var op := DecodeOne(h, s).value.op;
            op.kind == Frame ==> op.first == REGISTER_MAP[h.frameRegister] && op.second == h.frameOffset
  {
  }

  lemma {:induction false} DescendingEverywhere(ops: seq<Operation>, i: nat, j: nat)
    requires Descending(ops) && i <= j < |ops|
    ensures ops[i].codeOffset >= ops[j].codeOffset
    decreases j - i
  {
    if i < j {
      DescendingEverywhere(ops, i, j - 1);
    }
  }

  lemma {:induction false} ReversedAscends(listed: seq<Operation>)
    requires Descending(listed)
    ensures SortedByOffset(Reverse(listed))
  {
    var n := |listed|;
    forall i, j | 0 <= i < j < n ensures Reverse(listed)[i].codeOffset <= Reverse(listed)[j].codeOffset {
      DescendingEverywhere(listed, n - 1 - j, n - 1 - i);
    }
  }

  /** Decoded operations are well formed, ascending, and share one frame header. */
  lemma {:induction false} DecodedCodes(h: Header, s: seq<Byte>)
    requires |s| % 2 == 0 && ValidHeader(h) && DecodeCodes(h, s).Some?
    ensures var ops := DecodeCodes(h, s).value;
            AllWellFormed(ops) && SortedByOffset(ops) && OneHeader(ops) && 2 * |ops| <= |s|
  {
    var listed := DecodeList(h, s).value;
    DecodedListWellFormed(h, s);
    DecodedLength(h, s);
    ReversedAscends(listed);
    assert forall i :: 0 <= i < |listed| ==> Reverse(listed)[i] in listed;
  }

  lemma {:induction false} DecodedLength(h: Header, s: seq<Byte>)
    requires |s| % 2 == 0 && DecodeList(h, s).Some?
    ensures 2 * |DecodeList(h, s).value| <= |s|
    decreases |s|
  {
    if s != [] {
      DecodedLength(h, s[2 * (DecodeOne(h, s).value.operands + 1)..]);
    }
  }

  // ----- encoding

  /** The choices an encoder has: the size class of an operand, and the ignored info bits of SET_FPREG. */
  datatype Form = Small | Near | Far | Ignored(info: Nibble)

  /** The x64 number of a DWARF register. */
  function X64Register(reg: nat): Nibble
    requires reg < 16
  {
    [0, 2, 1, 3, 6, 7, 5, 4, 8, 9, 10, 11, 12, 13, 14, 15][reg]
  }

  function Code(offset: U8, opcode: Nibble, info: Nibble): seq<Byte> { [offset, info * 16 + opcode] }

  function U16Bytes(v: U16): seq<Byte> { [v % 0x100, v / 0x100] }

  /** This form can carry this operation under this header. */
  predicate Legal(h: Header, op: Operation, form: Form) {
    && op.codeOffset <= h.prologSize && (op.codeOffset == 0 ==> h.chained)
    && match op.kind
       case Push => form == Small && op.second == 0 && op.first < 16 && Nonvolatile(X64Register(op.first))
       case Alloc => && op.second == 0 && op.first > 0 && op.first % 8 == 0
                     && (form == Small ==> op.first <= 128)
                     && (form == Near ==> op.first / 8 < 0x1_0000)
                     && !form.Ignored?
       case Frame => && form.Ignored? && h.frameRegister != 0
                     && op.first == REGISTER_MAP[h.frameRegister] && op.second == h.frameOffset
       case Save => && (form == Near || form == Far)
                    && (if op.first < 16 then Nonvolatile(X64Register(op.first)) else 23 <= op.first <= 32)
                    && (form == Near ==> op.second % Scale(op) == 0 && op.second / Scale(op) < 0x1_0000)
       case Machine => form == Small && op.second == 0 && (op.first == 40 || op.first == 48)
  }

  function Scale(op: Operation): int { if op.first < 16 then 8 else 16 }

  function EncodeOne(h: Header, op: Operation, form: Form): seq<Byte>
    requires Legal(h, op, form)
  {
    match op.kind
    case Push => Code(op.codeOffset, 0, X64Register(op.first))
    case Alloc =>
      if form == Small then Code(op.codeOffset, 2, op.first / 8 - 1)
      else if form == Near then Code(op.codeOffset, 1, 0) + U16Bytes(op.first / 8)
      else Code(op.codeOffset, 1, 1) + U32Bytes(op.first)
    case Frame => Code(op.codeOffset, 3, form.info)
    case Save =>
      var info := if op.first < 16 then X64Register(op.first) else op.first - 17;
      var opcode := if op.first < 16 then 4 else 8;
      if form == Near then Code(op.codeOffset, opcode, info) + U16Bytes(op.second / Scale(op))
      else Code(op.codeOffset, opcode + 1, info) + U32Bytes(op.second)
    case Machine => Code(op.codeOffset, 10, (op.first - 40) / 8)
  }

  predicate AllLegal(h: Header, ops: seq<Operation>, forms: seq<Form>) {
    |forms| == |ops| && forall i :: 0 <= i < |ops| ==> Legal(h, ops[i], forms[i])
  }

  function EncodeList(h: Header, ops: seq<Operation>, forms: seq<Form>): seq<Byte>
    requires AllLegal(h, ops, forms)
  {
    if ops == [] then [] else EncodeOne(h, ops[0], forms[0]) + EncodeList(h, ops[1..], forms[1..])
  }

  // ----- the round trip

  lemma {:induction false} CodeFields(offset: U8, opcode: Nibble, info: Nibble, rest: seq<Byte>)
    ensures var s := Code(offset, opcode, info) + rest;
            s[0] == offset && s[1] % 16 == opcode && s[1] / 16 == info && s[2..] == rest
  {
  }

  lemma {:induction false} U16RoundTrip(s: seq<Byte>, v: U16)
    requires |s| >= 4 && s[2..4] == U16Bytes(v)
    ensures U16At(s, 2) == v
  {
    assert s[2] == s[2..4][0] && s[3] == s[2..4][1];
  }

  lemma {:induction false} EncodedAlloc(h: Header, op: Operation, form: Form, rest: seq<Byte>)
    requires Legal(h, op, form) && op.kind == Alloc
    ensures var e := EncodeOne(h, op, form);
            |e| >= 2 && |e| % 2 == 0 && DecodeOne(h, e + rest) == Some(Decoded(op, |e| / 2 - 1))
  {
    var s := EncodeOne(h, op, form) + rest;
    if form == Small {
      CodeFields(op.codeOffset, 2, op.first / 8 - 1, rest);
    } else if form == Near {
      assert s == Code(op.codeOffset, 1, 0) + (U16Bytes(op.first / 8) + rest);
      CodeFields(op.codeOffset, 1, 0, U16Bytes(op.first / 8) + rest);
      assert s[2..4] == U16Bytes(op.first / 8);
      U16RoundTrip(s, op.first / 8);
    } else {
      assert s == Code(op.codeOffset, 1, 1) + (U32Bytes(op.first) + rest);
      CodeFields(op.codeOffset, 1, 1, U32Bytes(op.first) + rest);
      assert s[2..6] == U32Bytes(op.first);
      U32RoundTrip(s, 2, op.first);
    }
  }

  lemma {:induction false} EncodedSave(h: Header, op: Operation, form: Form, rest: seq<Byte>)
    requires Legal(h, op, form) && op.kind == Save
    ensures var e := EncodeOne(h, op, form);
            |e| >= 2 && |e| % 2 == 0 && DecodeOne(h, e + rest) == Some(Decoded(op, |e| / 2 - 1))
  {
    var s := EncodeOne(h, op, form) + rest;
    var info := if op.first < 16 then X64Register(op.first) else op.first - 17;
    var opcode := if op.first < 16 then 4 else 8;
    RegisterMapInverse(op.first);
    if form == Near {
      var v := op.second / Scale(op);
      assert s == Code(op.codeOffset, opcode, info) + (U16Bytes(v) + rest);
      CodeFields(op.codeOffset, opcode, info, U16Bytes(v) + rest);
      assert s[2..4] == U16Bytes(v);
      U16RoundTrip(s, v);
    } else {
      assert s == Code(op.codeOffset, opcode + 1, info) + (U32Bytes(op.second) + rest);
      CodeFields(op.codeOffset, opcode + 1, info, U32Bytes(op.second) + rest);
      assert s[2..6] == U32Bytes(op.second);
      U32RoundTrip(s, 2, op.second);
    }
  }

  lemma {:induction false} RegisterMapInverse(reg: nat)
    ensures reg < 16 ==> REGISTER_MAP[X64Register(reg)] == reg
  {
  }

  lemma {:induction false} EncodedOne(h: Header, op: Operation, form: Form, rest: seq<Byte>)
    requires Legal(h, op, form)
    ensures var e := EncodeOne(h, op, form);
            |e| >= 2 && |e| % 2 == 0 && DecodeOne(h, e + rest) == Some(Decoded(op, |e| / 2 - 1))
  {
    match op.kind
    case Push =>
      CodeFields(op.codeOffset, 0, X64Register(op.first), rest);
      RegisterMapInverse(op.first);
    case Alloc => EncodedAlloc(h, op, form, rest);
    case Frame => CodeFields(op.codeOffset, 3, form.info, rest);
    case Save => EncodedSave(h, op, form, rest);
    case Machine => CodeFields(op.codeOffset, 10, (op.first - 40) / 8, rest);
  }

  lemma {:induction false} EvenSum(a: nat, b: nat)
    requires a % 2 == 0
    ensures (a + b) % 2 == b % 2
  {
  }

  lemma {:induction false} EncodedFirst(h: Header, op: Operation, form: Form, more: seq<Byte>, ops: seq<Operation>)
    requires Legal(h, op, form) && |more| % 2 == 0 && DecodeList(h, more) == Some(ops)
    ensures |EncodeOne(h, op, form) + more| % 2 == 0
    ensures DecodeList(h, EncodeOne(h, op, form) + more) == Some([op] + ops)
  {
    var e := EncodeOne(h, op, form);
    EvenSum(|e|, |more|);
    EncodedOne(h, op, form, more);
    assert (e + more)[|e|..] == more;
  }

  lemma {:induction false} EncodedList(h: Header, ops: seq<Operation>, forms: seq<Form>)
    requires AllLegal(h, ops, forms)
    ensures |EncodeList(h, ops, forms)| % 2 == 0
    ensures DecodeList(h, EncodeList(h, ops, forms)) == Some(ops)
    decreases |ops|
  {
    if ops != [] {
      EncodedList(h, ops[1..], forms[1..]);
      EncodedFirst(h, ops[0], forms[0], EncodeList(h, ops[1..], forms[1..]), ops[1..]);
      assert [ops[0]] + ops[1..] == ops;
    }
  }

  /**
   * Decoding inverts encoding: for every ascending operation list and every legal choice of forms, decoding the
   * codes (written latest first) consumes them all and gives the list back in prolog order.
   */
  lemma {:induction false} DecodeInvertsEncode(h: Header, ops: seq<Operation>, forms: seq<Form>)
    requires AllLegal(h, Reverse(ops), forms) && SortedByOffset(ops)
    ensures |EncodeList(h, Reverse(ops), forms)| % 2 == 0
    ensures DecodeCodes(h, EncodeList(h, Reverse(ops), forms)) == Some(ops)
  {
    EncodedList(h, Reverse(ops), forms);
    assert Reverse(Reverse(ops)) == ops;
  }

  /** The form a code was found in. */
  function FormOf(s: seq<Byte>): Form
    requires |s| >= 2
  {
    var opcode, info := s[1] % 16, s[1] / 16;
    if opcode == 3 then Ignored(info)
    else if opcode == 4 || opcode == 8 || (opcode == 1 && info == 0) then Near
    else if opcode == 5 || opcode == 9 || opcode == 1 then Far
    else Small
  }

  lemma {:induction false} X64RegisterInverse(info: Nibble)
    ensures REGISTER_MAP[info] < 16 && X64Register(REGISTER_MAP[info]) == info
  {
  }

  lemma {:induction false} CodeOf(s: seq<Byte>)
    requires |s| >= 2
    ensures Code(s[0], s[1] % 16, s[1] / 16) == s[..2]
  {
  }

  lemma {:induction false} U16Of(s: seq<Byte>)
    requires |s| >= 4
    ensures U16Bytes(U16At(s, 2)) == s[2..4]
  {
  }

  lemma {:induction false} AcceptedAlloc(h: Header, s: seq<Byte>)
    requires |s| >= 2 && DecodeOne(h, s).Some? && (s[1] % 16 == 1 || s[1] % 16 == 2)
    ensures var one := DecodeOne(h, s).value;
            && Legal(h, one.op, FormOf(s))
            && EncodeOne(h, one.op, FormOf(s)) == s[..2 * (one.operands + 1)]
  {
    CodeOf(s);
    if s[1] % 16 == 1 {
      if s[1] / 16 == 0 {
        U16Of(s);
        assert s[..2] + s[2..4] == s[..4];
      } else {
        U32RoundTrip(s, 2, U32At(s, 2));
        assert s[..2] + s[2..6] == s[..6];
      }
    }
  }

  lemma {:induction false} AcceptedNearSave(h: Header, s: seq<Byte>)
    requires |s| >= 2 && DecodeOne(h, s).Some? && (s[1] % 16 == 4 || s[1] % 16 == 8)
    ensures var one := DecodeOne(h, s).value;
            && Legal(h, one.op, FormOf(s))
            && EncodeOne(h, one.op, FormOf(s)) == s[..2 * (one.operands + 1)]
  {
    CodeOf(s);
    X64RegisterInverse(s[1] / 16);
    U16Of(s);
    assert s[..2] + s[2..4] == s[..4];
  }

  lemma {:induction false} AcceptedFarSave(h: Header, s: seq<Byte>)
    requires |s| >= 2 && DecodeOne(h, s).Some? && (s[1] % 16 == 5 || s[1] % 16 == 9)
    ensures var one := DecodeOne(h, s).value;
            && Legal(h, one.op, FormOf(s))
            && EncodeOne(h, one.op, FormOf(s)) == s[..2 * (one.operands + 1)]
  {
    CodeOf(s);
    X64RegisterInverse(s[1] / 16);
    U32RoundTrip(s, 2, U32At(s, 2));
    assert s[..2] + s[2..6] == s[..6];
  }

  lemma {:induction false} AcceptedOne(h: Header, s: seq<Byte>)
    requires |s| >= 2 && DecodeOne(h, s).Some?
    ensures var one := DecodeOne(h, s).value;
            && Legal(h, one.op, FormOf(s))
            && EncodeOne(h, one.op, FormOf(s)) == s[..2 * (one.operands + 1)]
  {
    var opcode := s[1] % 16;
    if opcode == 1 || opcode == 2 {
      AcceptedAlloc(h, s);
    } else if opcode == 4 || opcode == 8 {
      AcceptedNearSave(h, s);
    } else if opcode == 5 || opcode == 9 {
      AcceptedFarSave(h, s);
    } else {
      CodeOf(s);
      X64RegisterInverse(s[1] / 16);
    }
  }

  /** The list, one code unfolded. */
  lemma {:induction false} AcceptedHead(h: Header, s: seq<Byte>)
    requires |s| % 2 == 0 && s != [] && DecodeList(h, s).Some?
    ensures DecodeOne(h, s).Some?
    ensures var one := DecodeOne(h, s).value;
            var rest := s[2 * (one.operands + 1)..];
            |rest| % 2 == 0 && DecodeList(h, rest).Some?
              && DecodeList(h, s).value == [one.op] + DecodeList(h, rest).value
  {
    var one := DecodeOne(h, s).value;
    EvenSum(2 * (one.operands + 1), |s| - 2 * (one.operands + 1));
  }

  lemma {:induction false} AcceptedFirst(h: Header, s: seq<Byte>) returns (op: Operation, form: Form, n: nat)
    requires |s| % 2 == 0 && s != [] && DecodeList(h, s).Some?
    ensures 2 <= n <= |s| && |s[n..]| % 2 == 0 && DecodeList(h, s[n..]).Some?
    ensures DecodeList(h, s).value == [op] + DecodeList(h, s[n..]).value
    ensures Legal(h, op, form) && EncodeOne(h, op, form) == s[..n]
  {
    AcceptedHead(h, s);
    AcceptedOne(h, s);
    var one := DecodeOne(h, s).value;
    op, form, n := one.op, FormOf(s), 2 * (one.operands + 1);
  }

  /** Nothing else is accepted: what decodes is one of the legal encodings of its result, byte for byte. */
  lemma {:induction false} OnlyEncodingsDecode(h: Header, s: seq<Byte>) returns (forms: seq<Form>)
    requires |s| % 2 == 0 && DecodeList(h, s).Some?
    ensures AllLegal(h, DecodeList(h, s).value, forms)
    ensures EncodeList(h, DecodeList(h, s).value, forms) == s
    decreases |s|
  {
    if s == [] {
      forms := [];
    } else {
      var op, form, n := AcceptedFirst(h, s);
      var more := OnlyEncodingsDecode(h, s[n..]);
      forms := [form] + more;
      var later := DecodeList(h, s[n..]).value;
      assert ([op] + later)[1..] == later && forms[1..] == more;
      assert s[..n] + s[n..] == s;
    }
  }
}
