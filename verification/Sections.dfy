/** Section checks and the two image builders: parse_pe for the sidecar, fix_pe_image for the raw loader. */
module Sections {
  import opened Bytes
  import opened Wrappers
  import opened Sorting
  import opened Spans
  import opened PeView

  /** One row of the section table. */
  datatype Section = Section(virtualSize: U32, rva: U32, rawSize: U32, rawOffset: U32, flags: U32) {
    function Extent(): U32 { if virtualSize > rawSize then virtualSize else rawSize }

    predicate Executable() { flags / 0x2000_0000 % 2 == 1 }
  }

  /** What the optional header says, as far as the image layout needs it. */
  datatype Layout = Layout(imageSize: U32, headersSize: U32)

  predicate ValidLayout(l: Layout, fileSize: nat) {
    0 < l.imageSize <= MAX_IMAGE_SIZE && 0 < l.headersSize <= fileSize && l.headersSize <= l.imageSize
  }

  predicate AcceptableSection(s: Section, l: Layout, fileSize: nat) {
    && (s.rawSize > 0 ==> l.headersSize <= s.rawOffset && s.rawOffset + s.rawSize <= fileSize)
    && (s.Extent() > 0 ==> l.headersSize <= s.rva && s.rva + s.Extent() <= l.imageSize)
  }

  function Span(s: Section): Range
    requires s.rva + s.Extent() < 0x1_0000_0000
  {
    Range(s.rva, s.rva + s.Extent())
  }

  predicate AllAcceptable(table: seq<Section>, l: Layout, fileSize: nat) {
    forall i :: 0 <= i < |table| ==> AcceptableSection(table[i], l, fileSize)
  }

  /** The spans of the non-empty sections, in table order. */
  function Occupied(table: seq<Section>, l: Layout, fileSize: nat): (r: seq<Range>)
    requires ValidLayout(l, fileSize) && AllAcceptable(table, l, fileSize)
    ensures forall i :: 0 <= i < |r| ==> l.headersSize <= r[i].begin < r[i].end <= l.imageSize
    ensures forall x :: x in r <==> exists i :: 0 <= i < |table| && table[i].Extent() > 0 && x == Span(table[i])
  {
    if table == [] then []
    else
      var more := Occupied(table[1..], l, fileSize);
      assert forall i :: 0 <= i < |table[1..]| ==> table[1..][i] == table[i + 1];
      if table[0].Extent() > 0 then [Span(table[0])] + more else more
  }

  predicate Apart(a: Range, b: Range) { a.end <= b.begin || b.end <= a.begin }

  predicate PairwiseApart(r: seq<Range>) { forall i, j :: 0 <= i < j < |r| ==> Apart(r[i], r[j]) }

  predicate NonEmpty(r: seq<Range>) { forall i :: 0 <= i < |r| ==> r[i].begin < r[i].end }

  const BEGIN: Range -> int := (r: Range) => r.begin

  const END: Range -> int := (r: Range) => r.end

  predicate NoAdjacentOverlap(r: seq<Range>) { forall i :: 1 <= i < |r| ==> r[i - 1].end <= r[i].begin }

  /** The sort-and-compare-neighbours check is exactly pairwise disjointness. */
  lemma {:induction false} AdjacentCheckExact(r: seq<Range>)
    requires NonEmpty(r)
    ensures NoAdjacentOverlap(SortBy(r, BEGIN)) <==> PairwiseApart(r)
  {
    NeighbourCheck(r, BEGIN, END);
  }

  /** The table is accepted: every section in bounds and no two overlapping. */
  predicate Accepted(table: seq<Section>, l: Layout, fileSize: nat) {
    && ValidLayout(l, fileSize)
    && AllAcceptable(table, l, fileSize)
    && PairwiseApart(Occupied(table, l, fileSize))
  }

  method CheckSections(table: seq<Section>, l: Layout, fileSize: nat) returns (ok: bool)
    requires ValidLayout(l, fileSize)
    ensures ok == Accepted(table, l, fileSize)
  {
    var index := 0;
    while index < |table|
      invariant 0 <= index <= |table| && AllAcceptable(table[..index], l, fileSize)
    {
      if !AcceptableSection(table[index], l, fileSize) {
        return false;
      }
      index := index + 1;
    }
    assert table[..index] == table;
    AdjacentCheckExact(Occupied(table, l, fileSize));
    ok := CheckNoOverlap(SortBy(Occupied(table, l, fileSize), BEGIN));
  }

  method CheckNoOverlap(occupied: seq<Range>) returns (ok: bool)
    ensures ok == NoAdjacentOverlap(occupied)
  {
    var index := 1;
    while index < |occupied|
      invariant 1 <= index
      invariant forall i :: 1 <= i < index && i < |occupied| ==> occupied[i - 1].end <= occupied[i].begin
    {
      if occupied[index].begin < occupied[index - 1].end {
        return false;
      }
      index := index + 1;
    }
    ok := true;
  }

  // ----- the ranges later checks use

  /** Header range plus every section, and the sections that hold code. */
  function MappedRanges(table: seq<Section>, l: Layout, fileSize: nat): seq<Range>
    requires ValidLayout(l, fileSize) && AllAcceptable(table, l, fileSize)
  {
    [Range(0, l.headersSize)] + Occupied(table, l, fileSize)
  }

  function ExecutableRanges(table: seq<Section>, l: Layout, fileSize: nat): seq<Range>
    requires ValidLayout(l, fileSize) && AllAcceptable(table, l, fileSize)
  {
    if table == [] then []
    else
      var more := ExecutableRanges(table[1..], l, fileSize);
      if table[0].Extent() > 0 && table[0].Executable() then [Span(table[0])] + more else more
  }

  /** Code ranges are non-empty, inside the image and pairwise disjoint. */
  predicate ProperRanges(r: seq<Range>, imageSize: nat) {
    NonEmpty(r) && PairwiseApart(r) && forall i :: 0 <= i < |r| ==> r[i].end <= imageSize
  }

  lemma {:induction false} ExecutableProper(table: seq<Section>, l: Layout, fileSize: nat)
    requires Accepted(table, l, fileSize)
    ensures ProperRanges(ExecutableRanges(table, l, fileSize), l.imageSize)
    ensures forall x :: x in ExecutableRanges(table, l, fileSize) ==> x in Occupied(table, l, fileSize)
    decreases |table|
  {
    if table != [] {
      var o, more := Occupied(table, l, fileSize), Occupied(table[1..], l, fileSize);
      assert o == if table[0].Extent() > 0 then [Span(table[0])] + more else more;
      assert PairwiseApart(more) by {
        var k := |o| - |more|;
        assert forall i :: 0 <= i < |more| ==> more[i] == o[k + i];
      }
      ExecutableProper(table[1..], l, fileSize);
      var e := ExecutableRanges(table[1..], l, fileSize);
      if table[0].Extent() > 0 {
        forall j | 0 <= j < |e| ensures Apart(Span(table[0]), e[j]) {
          assert e[j] in more;
          var k :| 0 <= k < |more| && more[k] == e[j];
          assert Apart(o[0], o[k + 1]);
        }
      }
    }
  }

  // ----- images

  /** Address a lies in the raw data of section s. */
  predicate InRaw(s: Section, a: int) { s.rva <= a < s.rva + s.rawSize }

  /** Bytes of the file at their addresses, zero elsewhere; the first headerBytes bytes count as headers. */
  predicate HoldsFile(image: seq<Byte>, data: seq<Byte>, table: seq<Section>, headerBytes: nat) {
    forall a :: 0 <= a < |image| ==> ByteRight(image[a], a, data, table, headerBytes)
  }

  predicate ByteRight(b: Byte, a: int, data: seq<Byte>, table: seq<Section>, headerBytes: nat) {
    && (forall i :: 0 <= i < |table| && InRaw(table[i], a) ==>
          var at := table[i].rawOffset + a - table[i].rva;
          0 <= at < |data| && b == data[at])
    && ((forall i :: 0 <= i < |table| ==> !InRaw(table[i], a)) ==>
          b == if 0 <= a < headerBytes && a < |data| then data[a] else 0)
  }

  /** memcpy from the file into the image. */
  method CopyInto(image: array<Byte>, at: nat, data: seq<Byte>, from: nat, size: nat)
    requires at + size <= image.Length && from + size <= |data|
    modifies image
    ensures forall a :: 0 <= a < image.Length ==>
                          image[a] == if at <= a < at + size then data[from + a - at] else old(image[a])
  {
    var i := 0;
    while i < size
      invariant 0 <= i <= size
      invariant forall a :: 0 <= a < image.Length ==>
                              image[a] == if at <= a < at + i then data[from + a - at] else old(image[a])
    {
      image[at + i] := data[from + i];
      i := i + 1;
    }
  }

  lemma {:induction false} AcceptedTail(table: seq<Section>, l: Layout, fileSize: nat)
    requires Accepted(table, l, fileSize) && table != []
    ensures Accepted(table[1..], l, fileSize)
  {
    var o, more := Occupied(table, l, fileSize), Occupied(table[1..], l, fileSize);
    var k := |o| - |more|;
    assert forall x :: 0 <= x < |more| ==> more[x] == o[k + x];
  }

  lemma {:induction false} FirstApart(table: seq<Section>, l: Layout, fileSize: nat, j: nat)
    requires Accepted(table, l, fileSize) && 0 < j < |table| && table[0].Extent() > 0 && table[j].Extent() > 0
    ensures Apart(Span(table[0]), Span(table[j]))
  {
    var o, more := Occupied(table, l, fileSize), Occupied(table[1..], l, fileSize);
    assert table[1..][j - 1] == table[j];
    assert Span(table[j]) in more;
    var k :| 0 <= k < |more| && more[k] == Span(table[j]);
    assert o == [Span(table[0])] + more;
    assert Apart(o[0], o[k + 1]);
  }

  lemma {:induction false} OccupiedIndex(table: seq<Section>, l: Layout, fileSize: nat, i: nat, j: nat)
    requires Accepted(table, l, fileSize) && i < j < |table|
    requires table[i].Extent() > 0 && table[j].Extent() > 0
    ensures Apart(Span(table[i]), Span(table[j]))
    decreases |table|
  {
    if i == 0 {
      FirstApart(table, l, fileSize, j);
    } else {
      AcceptedTail(table, l, fileSize);
      OccupiedIndex(table[1..], l, fileSize, i - 1, j - 1);
    }
  }

  /** In an accepted table an address lies in the raw data of at most one section, and never in the headers. */
  lemma {:induction false} RawUnique(table: seq<Section>, l: Layout, fileSize: nat, i: nat, j: nat, a: int)
    requires Accepted(table, l, fileSize) && i < |table| && j < |table|
    requires InRaw(table[i], a) && InRaw(table[j], a)
    ensures i == j && l.headersSize <= a < l.imageSize
  {
    assert AcceptableSection(table[i], l, fileSize);
    if i < j { OccupiedIndex(table, l, fileSize, i, j); }
    if j < i { OccupiedIndex(table, l, fileSize, j, i); }
  }

  /** One more section's raw data is in place. */
  lemma {:induction false} SectionPlaced(before: Byte, after: Byte, a: int, data: seq<Byte>, table: seq<Section>,
                                         l: Layout, index: nat, headerBytes: nat)
    requires Accepted(table, l, |data|) && index < |table|
    requires ByteRight(before, a, data, table[..index], headerBytes)
    requires after == if InRaw(table[index], a) && 0 <= table[index].rawOffset + a - table[index].rva < |data|
                      then data[table[index].rawOffset + a - table[index].rva] else before
    ensures ByteRight(after, a, data, table[..index + 1], headerBytes)
  {
    var t := table[..index + 1];
    assert AcceptableSection(table[index], l, |data|);
    if InRaw(table[index], a) {
      forall i | 0 <= i < |t| && InRaw(t[i], a) ensures i == index {
        RawUnique(table, l, |data|, i, index, a);
      }
    } else {
      assert forall i :: 0 <= i < index ==> t[i] == table[..index][i];
      if forall i :: 0 <= i < |t| ==> !InRaw(t[i], a) {
        assert forall i :: 0 <= i < index ==> !InRaw(table[..index][i], a);
      }
    }
  }

  method CopySection(image: array<Byte>, data: seq<Byte>, table: seq<Section>, l: Layout, index: nat,
                     ghost headerBytes: nat)
    requires Accepted(table, l, |data|) && index < |table| && image.Length == l.imageSize
    requires HoldsFile(image[..], data, table[..index], headerBytes)
    modifies image
    ensures HoldsFile(image[..], data, table[..index + 1], headerBytes)
  {
    var s := table[index];
    assert AcceptableSection(s, l, |data|);
    ghost var before := image[..];
    if s.rawSize > 0 {
      CopyInto(image, s.rva, data, s.rawOffset, s.rawSize);
    }
    forall a | 0 <= a < image.Length ensures ByteRight(image[..][a], a, data, table[..index + 1], headerBytes) {
      assert ByteRight(before[a], a, data, table[..index], headerBytes);
      SectionPlaced(before[a], image[a], a, data, table, l, index, headerBytes);
    }
  }

  /** parse_pe: a zeroed image, the headers, then each section's raw data. */
  method AssembleImage(data: seq<Byte>, table: seq<Section>, l: Layout) returns (image: array<Byte>)
    requires Accepted(table, l, |data|)
    ensures fresh(image) && image.Length == l.imageSize
    ensures HoldsFile(image[..], data, table, l.headersSize)
  {
    image := new Byte[l.imageSize](_ => 0);
    CopyInto(image, 0, data, 0, l.headersSize);
    var index := 0;
    while index < |table|
      invariant 0 <= index <= |table|
      invariant HoldsFile(image[..], data, table[..index], l.headersSize)
    {
      CopySection(image, data, table, l, index, l.headersSize);
      index := index + 1;
    }
    assert table[..index] == table;
  }

  /**
   * fix_pe_image for a file whose size is not SizeOfImage: it copies as many header bytes as the first section's
   * PointerToRawData says, and fails on a section reaching past the image, even an empty one. 32-bit sums wrap.
   */
  method FixPeImage(data: seq<Byte>, table: seq<Section>, l: Layout) returns (ok: bool, image: array<Byte>)
    requires Accepted(table, l, |data|) && table != []
    requires table[0].rawOffset <= |data| && table[0].rawOffset <= l.imageSize
    ensures fresh(image) && image.Length == l.imageSize
    ensures ok <==> forall i :: 0 <= i < |table| && table[i].Extent() == 0 ==> table[i].rva <= l.imageSize
    ensures ok ==> HoldsFile(image[..], data, table, table[0].rawOffset)
  {
    image := new Byte[l.imageSize](_ => 0);
    CopyInto(image, 0, data, 0, table[0].rawOffset);
    var index := 0;
    while index < |table|
      invariant 0 <= index <= |table|
      invariant HoldsFile(image[..], data, table[..index], table[0].rawOffset)
      invariant forall i :: 0 <= i < index && table[i].Extent() == 0 ==> table[i].rva <= l.imageSize
    {
      assert AcceptableSection(table[index], l, |data|);
      if Wrap32(table[index].rva + table[index].rawSize) > l.imageSize {
        return false, image;
      }
      CopySection(image, data, table, l, index, table[0].rawOffset);
      index := index + 1;
    }
    assert table[..index] == table;
    ok := true;
  }

  /** Between the two header sizes, every byte is a section's or zero in the file. */
  predicate HeaderTailQuiet(data: seq<Byte>, table: seq<Section>, l: Layout, headerBytes: nat) {
    forall a :: 0 <= a < |data| ==> Quiet(a, data, table, l, headerBytes)
  }

  predicate Quiet(a: nat, data: seq<Byte>, table: seq<Section>, l: Layout, headerBytes: nat)
    requires a < |data|
  {
    a < l.imageSize && Between(a, l.headersSize, headerBytes) ==>
      (exists i :: 0 <= i < |table| && InRaw(table[i], a)) || data[a] == 0
  }

  predicate Between(a: nat, x: nat, y: nat) { x <= a < y || y <= a < x }

  /**
   * The two builders agree just when nothing but zeros or section data lies between SizeOfHeaders and the first
   * PointerToRawData; in particular when the two are equal.
   */
  lemma {:induction false} BuildersAgree(x: seq<Byte>, y: seq<Byte>, data: seq<Byte>, table: seq<Section>, l: Layout,
                                         headerBytes: nat)
    requires ValidLayout(l, |data|) && headerBytes <= |data|
    requires |x| == |y| == l.imageSize
    requires HoldsFile(x, data, table, l.headersSize) && HoldsFile(y, data, table, headerBytes)
    ensures x == y <==> HeaderTailQuiet(data, table, l, headerBytes)
  {
    forall a | 0 <= a < |x|
      ensures (exists i :: 0 <= i < |table| && InRaw(table[i], a)) ==> x[a] == y[a]
      ensures (forall i :: 0 <= i < |table| ==> !InRaw(table[i], a)) ==>
                (x[a] == y[a] <==> (Between(a, l.headersSize, headerBytes) && a < |data| ==> data[a] == 0))
      ensures a < |data| ==> (x[a] == y[a] <==> Quiet(a, data, table, l, headerBytes))
    {
      assert ByteRight(x[a], a, data, table, l.headersSize) && ByteRight(y[a], a, data, table, headerBytes);
    }
  }

  /** Nothing but headers lies below SizeOfHeaders. */
  lemma {:induction false} HeadersClear(table: seq<Section>, l: Layout, fileSize: nat, i: nat, a: int)
    requires Accepted(table, l, fileSize) && i < |table| && InRaw(table[i], a)
    ensures l.headersSize <= a
  {
    RawUnique(table, l, fileSize, i, i, a);
  }

  /**
   * In every accepted file whose first section has PointerToRawData 0, as one without raw data has, the raw loader
   * copies no headers at all: its image is zero where the sidecar's holds the file's headers.
   */
  lemma {:induction false} BuildersDiffer(x: seq<Byte>, y: seq<Byte>, data: seq<Byte>, table: seq<Section>, l: Layout)
    requires Accepted(table, l, |data|) && table != [] && table[0].rawOffset == 0
    requires |x| == |y| == l.imageSize
    requires HoldsFile(x, data, table, l.headersSize) && HoldsFile(y, data, table, table[0].rawOffset)
    ensures forall a :: 0 <= a < l.headersSize ==> x[a] == data[a] && y[a] == 0
    ensures data[0] != 0 ==> x != y
  {
    forall a | 0 <= a < l.headersSize ensures x[a] == data[a] && y[a] == 0 {
      forall i | 0 <= i < |table| ensures !InRaw(table[i], a) {
        if InRaw(table[i], a) {
          HeadersClear(table, l, |data|, i, a);
        }
      }
      assert ByteRight(x[a], a, data, table, l.headersSize) && ByteRight(y[a], a, data, table, 0);
    }
    assert x[0] == data[0] && y[0] == 0;
  }
}
