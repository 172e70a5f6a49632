/** Little-endian words of any width, and bytes overwritten in place. */
module Words {
  import opened Bytes

  function Power256(n: nat): (m: nat)
    ensures m > 0
  {
    if n == 0 then 1 else 256 * Power256(n - 1)
  }

  function Value(s: seq<Byte>): (v: nat)
    decreases |s|
  {
    if s == [] then 0 else s[0] + 256 * Value(s[1..])
  }

  /** The low n bytes of a number, of either sign. */
  function Encode(v: int, n: nat): (s: seq<Byte>)
    ensures |s| == n
    decreases n
  {
    if n == 0 then [] else [v % 256] + Encode(v / 256, n - 1)
  }

  lemma {:induction false} ValueBound(s: seq<Byte>)
    ensures Value(s) < Power256(|s|)
    decreases |s|
  {
    if s != [] {
      ValueBound(s[1..]);
    }
  }

  lemma {:induction false} EncodeValue(s: seq<Byte>)
    ensures Encode(Value(s), |s|) == s
    decreases |s|
  {
    if s != [] {
      EncodeValue(s[1..]);
      var v := Value(s[1..]);
      assert Value(s) % 256 == s[0] && Value(s) / 256 == v;
    }
  }

  /** Storing n bytes of a number keeps it modulo 256^n. */
  lemma {:induction false} ValueEncode(v: int, n: nat)
    ensures Value(Encode(v, n)) == v % Power256(n)
    decreases n
  {
    if n > 0 {
      var m := Power256(n - 1);
      ValueEncode(v / 256, n - 1);
      assert Encode(v, n)[1..] == Encode(v / 256, n - 1);
      NestedMod(v, m);
    }
  }

  lemma {:induction false} NestedMod(v: int, m: int)
    requires m > 0
    ensures v % (256 * m) == v % 256 + 256 * (v / 256 % m)
  {
    var low, high := v % 256, v / 256;
    var q, r := high / m, high % m;
    assert high == m * q + r;
    assert v == 256 * m * q + (low + 256 * r);
    assert 0 <= low + 256 * r < 256 * m by {
      assert r + 1 <= m;
      assert 256 * (r + 1) <= 256 * m;
    }
    RemainderIs(v, 256 * m, q, low + 256 * r);
  }

  lemma {:induction false} RemainderIs(v: int, m: int, q: int, r: int)
    requires m > 0 && v == m * q + r && 0 <= r < m
    ensures v % m == r
  {
    var k := v / m - q;
    assert m * (v / m) + v % m == v;
    assert m * k == r - v % m;
    Multiple(k, m, r - v % m);
  }

  lemma {:induction false} Multiple(k: int, m: int, d: int)
    requires m > 0 && m * k == d && -m < d < m
    ensures d == 0
  {
    assert k >= 1 ==> m * k >= m * 1;
    assert k <= -1 ==> m * k <= m * -1;
  }

  /** Reducing first changes nothing, so unsigned arithmetic of the stored width computes the same bytes. */
  lemma {:induction false} EncodeMod(v: int, n: nat)
    ensures Encode(v % Power256(n), n) == Encode(v, n)
  {
    var m := Power256(n);
    ValueEncode(v, n);
    EncodeValue(Encode(v, n));
    assert |Encode(v, n)| == n;
  }

  lemma {:induction false} ValueInjective(s: seq<Byte>, t: seq<Byte>)
    requires |s| == |t| && Value(s) == Value(t)
    ensures s == t
  {
    EncodeValue(s);
    EncodeValue(t);
  }

  lemma {:induction false} Powers()
    ensures Power256(4) == 0x1_0000_0000 && Power256(8) == 0x1_0000_0000_0000_0000
  {
    assert Power256(2) == 0x1_0000;
    assert Power256(4) == 256 * (256 * Power256(2));
    assert Power256(6) == 256 * (256 * Power256(4));
    assert Power256(8) == 256 * (256 * Power256(6));
  }

  /** A slice of a slice. */
  lemma {:induction false} SubSlice(file: seq<Byte>, at: nat, bytes: seq<Byte>, from: nat, n: nat)
    requires at + |bytes| <= |file| && file[at..at + |bytes|] == bytes && from + n <= |bytes|
    ensures file[at + from..at + from + n] == bytes[from..from + n]
  {
    var x, y := file[at + from..at + from + n], bytes[from..from + n];
    forall k | 0 <= k < n ensures x[k] == y[k] {
      assert file[at..at + |bytes|][from + k] == file[at + from + k];
    }
  }

  /** A number that fits reads back. */
  lemma {:induction false} Reduced(v: nat, n: nat)
    requires (n == 4 && v < 0x1_0000_0000) || (n == 8 && v < 0x1_0000_0000_0000_0000)
    ensures Value(Encode(v, n)) == v
  {
    Powers();
    ValueEncode(v, n);
  }

  // ----- overwriting

  function Replace(s: seq<Byte>, at: nat, bytes: seq<Byte>): (r: seq<Byte>)
    requires at + |bytes| <= |s|
    ensures |r| == |s|
  {
    s[..at] + bytes + s[at + |bytes|..]
  }

  lemma {:induction false} ReplacedAt(s: seq<Byte>, at: nat, bytes: seq<Byte>, a: nat)
    requires at + |bytes| <= |s| && a < |s|
    ensures Replace(s, at, bytes)[a] == if at <= a < at + |bytes| then bytes[a - at] else s[a]
  {
  }

  method Store(image: array<Byte>, at: nat, bytes: seq<Byte>)
    requires at + |bytes| <= image.Length
    modifies image
    ensures image[..] == Replace(old(image[..]), at, bytes)
  {
    ghost var s := image[..];
    var i := 0;
    while i < |bytes|
      invariant 0 <= i <= |bytes|
      invariant forall a :: 0 <= a < image.Length ==> image[a] == if at <= a < at + i then bytes[a - at] else s[a]
    {
      image[at + i] := bytes[i];
      i := i + 1;
    }
  }
}
