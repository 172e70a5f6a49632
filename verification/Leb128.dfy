/** LEB128 numbers, section 7.6 of DWARF 4, as append_uleb and append_sleb write them. */
module Leb128 {
  import opened Bytes
  import opened Wrappers

  /** What follows a number: the value read and the bytes after it. */
  datatype Read<+V> = Read(value: V, rest: seq<Byte>)

  function Uleb(v: nat): seq<Byte> {
    if v < 128 then [v] else [v % 128 + 128] + Uleb(v / 128)
  }

  function Sleb(v: int): seq<Byte>
    decreases if v < 0 then -v else v
  {
    if -64 <= v < 64 then [v % 128] else [v % 128 + 128] + Sleb(v / 128)
  }

  /** The reader of figure 46 in DWARF 4: low seven bits of every byte, least significant group first. */
  function ReadUleb(s: seq<Byte>): (r: Option<Read<nat>>)
    ensures r.Some? ==> |r.value.rest| < |s| && r.value.rest == s[|s| - |r.value.rest|..]
  {
    if s == [] then None
    else if s[0] < 128 then Some(Read(s[0], s[1..]))
    else
      var more :- ReadUleb(s[1..]);
      Some(Read(s[0] - 128 + 128 * more.value, more.rest))
  }

  /** The reader of figure 47: as above, with the second-highest bit of the last byte as sign. */
  function ReadSleb(s: seq<Byte>): (r: Option<Read<int>>)
    ensures r.Some? ==> |r.value.rest| < |s| && r.value.rest == s[|s| - |r.value.rest|..]
  {
    if s == [] then None
    else
      var byte: int := s[0];
      if byte < 64 then Some(Read(byte, s[1..]))
      else if byte < 128 then Some(Read(byte - 128, s[1..]))
      else
        var more :- ReadSleb(s[1..]);
        Some(Read(byte - 128 + 128 * more.value, more.rest))
  }

  lemma {:induction false} UlebRoundTrip(v: nat, rest: seq<Byte>)
    ensures ReadUleb(Uleb(v) + rest) == Some(Read(v, rest))
  {
    var s := Uleb(v) + rest;
    if v < 128 {
      assert s[1..] == rest;
    } else {
      UlebRoundTrip(v / 128, rest);
      assert s[1..] == Uleb(v / 128) + rest;
    }
  }

  lemma {:induction false} SlebRoundTrip(v: int, rest: seq<Byte>)
    ensures ReadSleb(Sleb(v) + rest) == Some(Read(v, rest))
    decreases if v < 0 then -v else v
  {
    var s := Sleb(v) + rest;
    if -64 <= v < 64 {
      assert s[1..] == rest;
    } else {
      var high, byte := v / 128, v % 128 + 128;
      assert Sleb(v) == [byte] + Sleb(high);
      SlebRoundTrip(high, rest);
      assert s[1..] == Sleb(high) + rest;
      assert s[0] == byte && byte >= 128;
    }
  }

  lemma {:induction false} UlebStep(v: nat)
    ensures var byte, high := v % 128, v / 128;
            Uleb(v) == if high != 0 then [byte + 128] + Uleb(high) else [byte]
  {
  }

  lemma {:induction false} SlebStep(v: int)
    ensures var byte, high := v % 128, v / 128;
            Sleb(v) == if !((high == 0 && byte < 64) || (high == -1 && byte >= 64))
                       then [byte + 128] + Sleb(high) else [byte]
  {
  }

  method AppendUleb(out: ByteVector, value: U64)
    modifies out
    ensures out.bytes == old(out.bytes) + Uleb(value)
  {
    var v: nat := value;
    var more := true;
    while more
      invariant !more ==> v == 0
      invariant old(out.bytes) + Uleb(value) == out.bytes + (if more then Uleb(v) else [])
      decreases if more then v + 1 else 0
    {
      UlebStep(v);
      ghost var before := out.bytes;
      var byte := v % 128;
      v := v / 128;
      more := v != 0;
      out.PushBack(if more then byte + 128 else byte);
      Assoc(before, [if more then byte + 128 else byte], Uleb(v));
    }
  }

  method AppendSleb(out: ByteVector, value: I64)
    modifies out
    ensures out.bytes == old(out.bytes) + Sleb(value)
  {
    var v: int := value;
    var more := true;
    while more
      invariant old(out.bytes) + Sleb(value) == out.bytes + (if more then Sleb(v) else [])
      decreases more, if v < 0 then -v else v
    {
      SlebStep(v);
      ghost var before := out.bytes;
      var byte := v % 128;
      v := v / 128; // arithmetic shift: rounds towards minus infinity
      more := !((v == 0 && byte < 64) || (v == -1 && byte >= 64));
      out.PushBack(if more then byte + 128 else byte);
      Assoc(before, [if more then byte + 128 else byte], Sleb(v));
    }
  }
}
