/** Bytes, fixed-width little-endian fields and the growing byte vector of src/pe_sidecar.cpp. */
module Bytes {

  type Byte = x: int | 0 <= x < 0x100
  type Nibble = x: int | 0 <= x < 16
  type U8 = x: int | 0 <= x < 0x100
  type U16 = x: int | 0 <= x < 0x1_0000
  type U32 = x: int | 0 <= x < 0x1_0000_0000
  type U64 = x: int | 0 <= x < 0x1_0000_0000_0000_0000
  type I64 = x: int | -0x8000_0000_0000_0000 <= x < 0x8000_0000_0000_0000

  /** Unsigned 32-bit wrap-around. */
  function Wrap32(x: int): U32 { if 0 <= x < 0x1_0000_0000 then x else x % 0x1_0000_0000 }

  /** Unsigned 64-bit wrap-around. */
  function Wrap64(x: int): U64 { if 0 <= x < 0x1_0000_0000_0000_0000 then x else x % 0x1_0000_0000_0000_0000 }

  /** The two's complement reading of a 64-bit word. */
  function Signed64(x: U64): (r: int)
    ensures -0x8000_0000_0000_0000 <= r < 0x8000_0000_0000_0000
  {
    if x < 0x8000_0000_0000_0000 then x else x - 0x1_0000_0000_0000_0000
  }

  /** The two's complement reading of a 32-bit word. */
  function Signed32(x: U32): int {
    if x < 0x8000_0000 then x else x - 0x1_0000_0000
  }

  function Join32(b0: Byte, b1: Byte, b2: Byte, b3: Byte): U32 {
    b0 + 0x100 * b1 + 0x1_0000 * b2 + 0x100_0000 * b3
  }

  function U32Bytes(v: U32): seq<Byte> {
    [v % 0x100, v / 0x100 % 0x100, v / 0x1_0000 % 0x100, v / 0x100_0000]
  }

  function U32At(s: seq<Byte>, k: nat): U32
    requires k + 4 <= |s|
  {
    Join32(s[k], s[k + 1], s[k + 2], s[k + 3])
  }

  function U16At(s: seq<Byte>, k: nat): U16
    requires k + 2 <= |s|
  {
    var low: int, high: int := s[k], s[k + 1];
    low + 0x100 * high
  }

  lemma {:induction false} JoinSplit(v: U32)
    ensures Join32(v % 0x100, v / 0x100 % 0x100, v / 0x1_0000 % 0x100, v / 0x100_0000) == v
  {
    var a, b := v / 0x100, v / 0x1_0000;
    assert b == a / 0x100;
    assert v / 0x100_0000 == b / 0x100;
  }

  lemma {:induction false} SplitJoin(b0: Byte, b1: Byte, b2: Byte, b3: Byte)
    ensures U32Bytes(Join32(b0, b1, b2, b3)) == [b0, b1, b2, b3]
  {
    var v := Join32(b0, b1, b2, b3);
    assert v / 0x100 == b1 + 0x100 * b2 + 0x1_0000 * b3;
    assert v / 0x1_0000 == b2 + 0x100 * b3;
    assert v / 0x100_0000 == b3;
  }

  /** A 32-bit field reads back wherever its four bytes were placed, and only that value has those bytes. */
  lemma {:induction false} U32RoundTrip(s: seq<Byte>, k: nat, v: U32)
    requires k + 4 <= |s|
    ensures s[k..k + 4] == U32Bytes(v) <==> U32At(s, k) == v
  {
    JoinSplit(v);
    SplitJoin(s[k], s[k + 1], s[k + 2], s[k + 3]);
    assert s[k..k + 4] == [s[k], s[k + 1], s[k + 2], s[k + 3]];
    if s[k..k + 4] == U32Bytes(v) {
      assert s[k] == U32Bytes(v)[0] && s[k + 1] == U32Bytes(v)[1] && s[k + 2] == U32Bytes(v)[2]
             && s[k + 3] == U32Bytes(v)[3];
    }
  }

  /** Concatenation facts that the solver does not see through by itself. */
  lemma {:induction false} Assoc<T>(a: seq<T>, b: seq<T>, c: seq<T>)
    ensures a + b + c == a + (b + c)
  {
  }

  lemma {:induction false} EmptyLeft<T>(a: seq<T>, b: seq<T>)
    ensures [] + a + b == a + b && [] + a == a && a + [] == a
  {
  }

  lemma {:induction false} ConsTail<T>(x: T, s: seq<T>, rest: seq<T>)
    ensures ([x] + s + rest)[0] == x && ([x] + s + rest)[1..] == s + rest
  {
  }

  function Zeros(n: nat): seq<Byte> { seq(n, _ => 0) }

  /** How many bytes bring size to a multiple of eight. */
  function PadTo8(size: nat): nat { (8 - size % 8) % 8 }

  /** std::vector<uint8_t> as the emitters use it: grown at the end, patched in place. */
  class ByteVector {
    var bytes: seq<Byte>

    constructor ()
      ensures bytes == []
    {
      bytes := [];
    }

    method PushBack(b: Byte)
      modifies this
      ensures bytes == old(bytes) + [b]
    {
      bytes := bytes + [b];
    }

    method AppendU32(value: U32)
      modifies this
      ensures bytes == old(bytes) + U32Bytes(value)
    {
      PushBack(value % 0x100);
      PushBack(value / 0x100 % 0x100);
      PushBack(value / 0x1_0000 % 0x100);
      PushBack(value / 0x100_0000);
    }

    method SetU32(offset: nat, value: U32)
      requires offset + 4 <= |bytes|
      modifies this
      ensures bytes == old(bytes)[..offset] + U32Bytes(value) + old(bytes)[offset + 4..]
    {
      bytes := bytes[offset := value % 0x100];
      bytes := bytes[offset + 1 := value / 0x100 % 0x100];
      bytes := bytes[offset + 2 := value / 0x1_0000 % 0x100];
      bytes := bytes[offset + 3 := value / 0x100_0000];
    }

    method Pad()
      modifies this
      ensures bytes == old(bytes) + Zeros(PadTo8(old(|bytes|)))
      ensures |bytes| % 8 == 0
    {
      ghost var n := 0;
      assert bytes == old(bytes) + Zeros(0);
      while |bytes| % 8 != 0
        invariant |bytes| == old(|bytes|) + n && n <= PadTo8(old(|bytes|))
        invariant bytes == old(bytes) + Zeros(n)
        decreases PadTo8(old(|bytes|)) - n
      {
        ghost var before := bytes;
        PushBack(0);
        Assoc(old(bytes), Zeros(n), [0]);
        assert Zeros(n) + [0] == Zeros(n + 1);
        n := n + 1;
      }
    }
  }
}
