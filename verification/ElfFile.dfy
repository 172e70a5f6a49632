/**
 * The output vector of build_elf: sized once, zero-filled, written piece by piece (src/pe_sidecar.cpp:764-778, 886).
 */
module ElfFile {
  import opened Bytes
  import opened Words

  /** Bytes placed at a file offset. */
  datatype Piece = Piece(at: nat, bytes: seq<Byte>)

  function End(p: Piece): nat { p.at + |p.bytes| }

  predicate AllInside(size: nat, ps: seq<Piece>) { forall i :: 0 <= i < |ps| ==> End(ps[i]) <= size }

  /** The file after the writes, in order. */
  function WriteAll(s: seq<Byte>, ps: seq<Piece>): (r: seq<Byte>)
    requires AllInside(|s|, ps)
    ensures |r| == |s|
  {
    if ps == [] then s
    else
      var n := |ps| - 1;
      assert AllInside(|s|, ps[..n]);
      Replace(WriteAll(s, ps[..n]), ps[n].at, ps[n].bytes)
  }

  predicate PieceApart(p: Piece, q: Piece) { End(p) <= q.at || End(q) <= p.at }

  predicate PiecesApart(ps: seq<Piece>) { forall i, j :: 0 <= i < j < |ps| ==> PieceApart(ps[i], ps[j]) }

  predicate Holds(p: Piece, a: int) { p.at <= a < End(p) }

  lemma {:induction false} WriteOne(s: seq<Byte>, ps: seq<Piece>, p: Piece)
    requires AllInside(|s|, ps) && End(p) <= |s|
    ensures AllInside(|s|, ps + [p]) && WriteAll(s, ps + [p]) == Replace(WriteAll(s, ps), p.at, p.bytes)
  {
    assert (ps + [p])[..|ps|] == ps;
  }

  /** A byte no piece holds is as before all writes. */
  lemma {:induction false} Untouched(s: seq<Byte>, ps: seq<Piece>, a: nat)
    requires AllInside(|s|, ps) && a < |s| && forall i :: 0 <= i < |ps| ==> !Holds(ps[i], a)
    ensures WriteAll(s, ps)[a] == s[a]
  {
    if ps != [] {
      var n := |ps| - 1;
      assert AllInside(|s|, ps[..n]);
      assert !Holds(ps[n], a);
      Untouched(s, ps[..n], a);
      ReplacedAt(WriteAll(s, ps[..n]), ps[n].at, ps[n].bytes, a);
    }
  }

  /** A piece whose later pieces stay clear of it reads back byte for byte. */
  lemma {:induction false} ByteReadsBack(s: seq<Byte>, ps: seq<Piece>, i: nat, a: nat)
    requires AllInside(|s|, ps) && PiecesApart(ps) && i < |ps| && Holds(ps[i], a)
    ensures WriteAll(s, ps)[a] == ps[i].bytes[a - ps[i].at]
  {
    var n := |ps| - 1;
    assert AllInside(|s|, ps[..n]);
    ReplacedAt(WriteAll(s, ps[..n]), ps[n].at, ps[n].bytes, a);
    if i < n {
      assert PieceApart(ps[i], ps[n]) && ps[..n][i] == ps[i];
      ByteReadsBack(s, ps[..n], i, a);
    }
  }

  /** Disjoint writes all read back, whatever their order. */
  lemma {:induction false} ReadsBack(s: seq<Byte>, ps: seq<Piece>, i: nat)
    requires AllInside(|s|, ps) && PiecesApart(ps) && i < |ps|
    ensures WriteAll(s, ps)[ps[i].at..End(ps[i])] == ps[i].bytes
  {
    var r, p := WriteAll(s, ps), ps[i];
    forall a | p.at <= a < End(p) ensures r[a] == p.bytes[a - p.at] {
      ByteReadsBack(s, ps, i, a);
    }
    forall k | 0 <= k < |p.bytes| ensures r[p.at..End(p)][k] == p.bytes[k] {
      assert r[p.at + k] == p.bytes[k];
    }
  }

  // ----- arrays of records

  function Concat(rs: seq<seq<Byte>>): seq<Byte> {
    if rs == [] then [] else Concat(rs[..|rs| - 1]) + rs[|rs| - 1]
  }

  predicate AllOf(rs: seq<seq<Byte>>, n: nat) { forall i :: 0 <= i < |rs| ==> |rs[i]| == n }

  lemma {:induction false} ConcatSize(rs: seq<seq<Byte>>, n: nat)
    requires AllOf(rs, n)
    ensures |Concat(rs)| == n * |rs|
  {
    if rs != [] {
      var k := |rs| - 1;
      assert |rs[k]| == n;
      ConcatSize(rs[..k], n);
      assert n * |rs| == n * k + n;
    }
  }

  /** Record i of an array of records. */
  lemma {:induction false} RecordAt(rs: seq<seq<Byte>>, n: nat, i: nat)
    requires AllOf(rs, n) && i < |rs|
    ensures 0 <= n * i <= n * i + n <= |Concat(rs)| && Concat(rs)[n * i..n * i + n] == rs[i]
  {
    var k := |rs| - 1;
    var before := Concat(rs[..k]);
    ConcatSize(rs[..k], n);
    if i < k {
      RecordAt(rs[..k], n, i);
      assert Concat(rs)[n * i..n * i + n] == before[n * i..n * i + n];
    }
  }

  lemma {:induction false} ReplaceTwice(s: seq<Byte>, at: nat, x: seq<Byte>, y: seq<Byte>)
    requires at + |x| + |y| <= |s|
    ensures Replace(Replace(s, at, x), at + |x|, y) == Replace(s, at, x + y)
  {
  }

  class Output {
    const data: array<Byte>
    ghost var written: seq<Piece>

    ghost predicate Valid()
      reads this, data
    {
      AllInside(data.Length, written) && data[..] == WriteAll(Zeros(data.Length), written)
    }

    constructor (size: nat)
      ensures Valid() && fresh(data) && data.Length == size && written == []
    {
      data := new Byte[size](_ => 0);
      written := [];
      new;
      assert data[..] == Zeros(size);
    }

    /** copy_bytes and copy_object: anything that does not fit is an error. */
    method CopyBytes(offset: nat, bytes: seq<Byte>) returns (ok: bool)
      requires Valid()
      modifies this`written, data
      ensures ok <==> offset + |bytes| <= data.Length
      ensures ok ==> Valid() && written == old(written) + [Piece(offset, bytes)]
    {
      if offset > data.Length || |bytes| > data.Length - offset {
        return false;
      }
      WriteOne(Zeros(data.Length), written, Piece(offset, bytes));
      Store(data, offset, bytes);
      written := written + [Piece(offset, bytes)];
      ok := true;
    }

    /** An array of equal-sized records, copied one by one. */
    method CopyRecords(offset: nat, n: nat, records: seq<seq<Byte>>) returns (ok: bool)
      requires Valid() && AllOf(records, n)
      modifies this`written, data
      ensures ok <==> records == [] || offset + n * |records| <= data.Length
      ensures ok && offset <= data.Length ==> Valid() && written == old(written) + [Piece(offset, Concat(records))]
    {
      if offset > data.Length {
        return records == [];
      }
      ghost var before := data[..];
      var index: nat := 0;
      while index < |records|
        invariant index <= |records| && written == old(written)
        invariant offset + |Concat(records[..index])| <= data.Length && |Concat(records[..index])| == n * index
        invariant data[..] == Replace(before, offset, Concat(records[..index]))
      {
        NextOffset(n, index, |records|);
        ConcatNext(records, index);
        assert |records[index]| == n;
        ghost var done := Concat(records[..index]);
        var at := offset + n * index;
        if n > data.Length - at {
          return false;
        }
        ReplaceTwice(before, offset, done, records[index]);
        Store(data, at, records[index]);
        assert data[..] == Replace(before, offset, done + records[index]);
        index := index + 1;
      }
      assert records[..index] == records;
      WriteOne(Zeros(data.Length), written, Piece(offset, Concat(records)));
      written := written + [Piece(offset, Concat(records))];
      ok := true;
    }
  }

  lemma {:induction false} NextOffset(n: nat, index: nat, count: nat)
    requires index < count
    ensures n * (index + 1) == n * index + n && n * index + n <= n * count
  {
    assert n * count == n * (index + 1) + n * (count - index - 1);
  }

  lemma {:induction false} ConcatNext(records: seq<seq<Byte>>, index: nat)
    requires index < |records|
    ensures Concat(records[..index + 1]) == Concat(records[..index]) + records[index]
  {
    assert records[..index + 1][..index] == records[..index];
  }
}
