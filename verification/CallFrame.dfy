/** DWARF call-frame instructions: their bytes, and the rows they build (section 6.4 of DWARF 4). */
module CallFrame {
  import opened Bytes
  import opened Leb128
  import opened Wrappers

  datatype Instruction =
    | Nop
    | AdvanceLoc(delta: nat)
    | DefCfa(reg: nat, offset: nat)
    | DefCfaOffset(offset: nat)
    | SavedAt(reg: nat, factored: int)

  type Program = seq<Instruction>

  /** One row of the unwind table: the CFA rule and, per register, an offset from the CFA. */
  datatype Row = Row(cfaReg: nat, cfaOffset: nat, rules: map<nat, int>)

  function Apply(row: Row, i: Instruction, dataAlign: int): Row {
    match i
    case Nop => row
    case AdvanceLoc(_) => row
    case DefCfa(reg, offset) => row.(cfaReg := reg, cfaOffset := offset)
    case DefCfaOffset(offset) => row.(cfaOffset := offset)
    case SavedAt(reg, factored) => row.(rules := row.rules[reg := factored * dataAlign])
  }

  /** The row in force at target: instructions run until the location counter would pass it. */
  function RowAt(p: Program, row: Row, dataAlign: int, loc: nat, target: nat): Row
    decreases |p|
  {
    if p == [] then row
    else if p[0].AdvanceLoc? then
      if loc + p[0].delta > target then row
      else RowAt(p[1..], row, dataAlign, loc + p[0].delta, target)
    else RowAt(p[1..], Apply(row, p[0], dataAlign), dataAlign, loc, target)
  }

  // ----- bytes

  function AdvanceBytes(delta: U32): seq<Byte> {
    if delta == 0 then []
    else if delta < 64 then [0x40 + delta]
    else if delta <= 0xff then [0x02, delta]
    else if delta <= 0xffff then [0x03, delta % 0x100, delta / 0x100]
    else [0x04] + U32Bytes(delta)
  }

  /** The encodings the sidecar chooses. DW_CFA_offset_extended_sf is its only register rule. */
  function Encode(i: Instruction): seq<Byte>
    requires Encodable(i)
  {
    match i
    case Nop => [0x00]
    case AdvanceLoc(delta) => AdvanceBytes(delta)
    case DefCfa(reg, offset) => [0x0c] + Uleb(reg) + Uleb(offset)
    case DefCfaOffset(offset) => [0x0e] + Uleb(offset)
    case SavedAt(reg, factored) => [0x11] + Uleb(reg) + Sleb(factored)
  }

  predicate Encodable(i: Instruction) {
    i.AdvanceLoc? ==> 0 < i.delta < 0x1_0000_0000
  }

  predicate AllEncodable(p: Program) { forall k :: 0 <= k < |p| ==> Encodable(p[k]) }

  function EncodeAll(p: Program): seq<Byte>
    requires AllEncodable(p)
  {
    if p == [] then [] else Encode(p[0]) + EncodeAll(p[1..])
  }

  /** A consumer's decoder: it accepts every encoding of the instructions above, not only those emitted here. */
  function ReadInstruction(s: seq<Byte>): (r: Option<Read<Instruction>>)
    requires s != []
    ensures r.Some? ==> |r.value.rest| < |s|
  {
    var op: int, t := s[0], s[1..];
    if op == 0x00 then Some(Read(Nop, t))
    else if 0x40 <= op < 0x80 then Some(Read(AdvanceLoc(op - 0x40), t))
    else if 0x80 <= op < 0xc0 then ReadOffset(op - 0x80, t)
    else if 0x02 <= op <= 0x04 then ReadAdvance(op, t)
    else if op == 0x0c then ReadDefCfa(t)
    else if op == 0x0e then ReadDefCfaOffset(t)
    else if op == 0x11 then ReadOffsetExtendedSf(t)
    else None
  }

  function ReadAdvance(op: int, t: seq<Byte>): (r: Option<Read<Instruction>>)
    ensures r.Some? ==> |r.value.rest| <= |t|
  {
    if op == 0x02 && |t| >= 1 then Some(Read(AdvanceLoc(t[0]), t[1..]))
    else if op == 0x03 && |t| >= 2 then Some(Read(AdvanceLoc(U16At(t, 0)), t[2..]))
    else if op == 0x04 && |t| >= 4 then Some(Read(AdvanceLoc(U32At(t, 0)), t[4..]))
    else None
  }

  function ReadOffset(reg: nat, t: seq<Byte>): (r: Option<Read<Instruction>>)
    ensures r.Some? ==> |r.value.rest| <= |t|
  {
    var offset :- ReadUleb(t);
    Some(Read(SavedAt(reg, offset.value), offset.rest))
  }

  function ReadDefCfa(t: seq<Byte>): (r: Option<Read<Instruction>>)
    ensures r.Some? ==> |r.value.rest| <= |t|
  {
    var reg :- ReadUleb(t);
    var offset :- ReadUleb(reg.rest);
    Some(Read(DefCfa(reg.value, offset.value), offset.rest))
  }

  function ReadDefCfaOffset(t: seq<Byte>): (r: Option<Read<Instruction>>)
    ensures r.Some? ==> |r.value.rest| <= |t|
  {
    var offset :- ReadUleb(t);
    Some(Read(DefCfaOffset(offset.value), offset.rest))
  }

  function ReadOffsetExtendedSf(t: seq<Byte>): (r: Option<Read<Instruction>>)
    ensures r.Some? ==> |r.value.rest| <= |t|
  {
    var reg :- ReadUleb(t);
    var factored :- ReadSleb(reg.rest);
    Some(Read(SavedAt(reg.value, factored.value), factored.rest))
  }

  function ReadProgram(s: seq<Byte>): Option<Program>
    decreases |s|
  {
    if s == [] then Some([])
    else
      var i :- ReadInstruction(s);
      var more :- ReadProgram(i.rest);
      Some([i.value] + more)
  }

  lemma {:induction false} AdvanceRoundTrip(delta: U32, rest: seq<Byte>)
    requires delta > 0
    ensures AdvanceBytes(delta) != []
    ensures ReadInstruction(AdvanceBytes(delta) + rest) == Some(Read(AdvanceLoc(delta), rest))
  {
    var s := AdvanceBytes(delta) + rest;
    var t := s[1..];
    if delta < 64 {
      assert t == rest;
    } else if delta <= 0xff {
      assert t[1..] == rest;
      assert ReadInstruction(s) == ReadAdvance(2, t);
    } else if delta <= 0xffff {
      assert t[2..] == rest;
      assert ReadInstruction(s) == ReadAdvance(3, t);
    } else {
      assert t == U32Bytes(delta) + rest;
      assert t[0..4] == U32Bytes(delta);
      U32RoundTrip(t, 0, delta);
      assert t[4..] == rest;
      assert ReadInstruction(s) == ReadAdvance(4, t);
    }
  }

  lemma {:induction false} DefCfaRoundTrip(reg: nat, offset: nat, rest: seq<Byte>)
    ensures ReadDefCfa(Uleb(reg) + Uleb(offset) + rest) == Some(Read(DefCfa(reg, offset), rest))
  {
    assert Uleb(reg) + Uleb(offset) + rest == Uleb(reg) + (Uleb(offset) + rest);
    UlebRoundTrip(reg, Uleb(offset) + rest);
    UlebRoundTrip(offset, rest);
  }

  lemma {:induction false} SavedAtRoundTrip(reg: nat, factored: int, rest: seq<Byte>)
    ensures ReadOffsetExtendedSf(Uleb(reg) + Sleb(factored) + rest) == Some(Read(SavedAt(reg, factored), rest))
  {
    assert Uleb(reg) + Sleb(factored) + rest == Uleb(reg) + (Sleb(factored) + rest);
    UlebRoundTrip(reg, Sleb(factored) + rest);
    SlebRoundTrip(factored, rest);
  }

  lemma {:induction false} InstructionRoundTrip(i: Instruction, rest: seq<Byte>)
    requires Encodable(i)
    ensures Encode(i) != []
    ensures ReadInstruction(Encode(i) + rest) == Some(Read(i, rest))
  {
    match i
    case Nop =>
      assert ([0x00] + rest)[1..] == rest;
    case AdvanceLoc(delta) =>
      AdvanceRoundTrip(delta, rest);
    case DefCfa(reg, offset) =>
      Assoc([0x0c], Uleb(reg), Uleb(offset));
      ConsTail(0x0c, Uleb(reg) + Uleb(offset), rest);
      DefCfaRoundTrip(reg, offset, rest);
    case DefCfaOffset(offset) =>
      ConsTail(0x0e, Uleb(offset), rest);
      UlebRoundTrip(offset, rest);
    case SavedAt(reg, factored) =>
      Assoc([0x11], Uleb(reg), Sleb(factored));
      ConsTail(0x11, Uleb(reg) + Sleb(factored), rest);
      SavedAtRoundTrip(reg, factored, rest);
  }

  /** Reading back what was written yields the same program, whatever follows it. */
  lemma {:induction false} ProgramRoundTrip(p: Program, tail: seq<Byte>, after: Program)
    requires AllEncodable(p)
    requires ReadProgram(tail) == Some(after)
    ensures ReadProgram(EncodeAll(p) + tail) == Some(p + after)
  {
    if p == [] {
      assert EncodeAll(p) + tail == tail;
      assert p + after == after;
    } else {
      var rest := EncodeAll(p[1..]) + tail;
      Assoc(Encode(p[0]), EncodeAll(p[1..]), tail);
      InstructionRoundTrip(p[0], rest);
      ProgramRoundTrip(p[1..], tail, after);
      Assoc([p[0]], p[1..], after);
      assert [p[0]] + p[1..] == p;
    }
  }

  function Nops(n: nat): Program { seq(n, _ => Nop) }

  lemma {:induction false} PaddingIsNops(n: nat)
    ensures ReadProgram(Zeros(n)) == Some(Nops(n))
  {
    if n > 0 {
      PaddingIsNops(n - 1);
      assert Zeros(n)[1..] == Zeros(n - 1);
      assert ReadInstruction(Zeros(n)) == Some(Read(Nop, Zeros(n - 1)));
      assert Nops(n) == [Nop] + Nops(n - 1);
    } else {
      assert Zeros(n) == [] && Nops(n) == [];
    }
  }

  lemma {:induction false} EncodeAllAppend(p: Program, q: Program)
    requires AllEncodable(p) && AllEncodable(q)
    ensures EncodeAll(p + q) == EncodeAll(p) + EncodeAll(q)
  {
    if p == [] {
      assert p + q == q;
    } else {
      assert (p + q)[1..] == p[1..] + q;
      EncodeAllAppend(p[1..], q);
    }
  }

  lemma {:induction false} RowAtNops(n: nat, row: Row, dataAlign: int, loc: nat, target: nat)
    ensures RowAt(Nops(n), row, dataAlign, loc, target) == row
  {
    if n > 0 {
      assert Nops(n)[1..] == Nops(n - 1);
      RowAtNops(n - 1, row, dataAlign, loc, target);
    }
  }
}
