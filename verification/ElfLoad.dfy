/** What the system's loader maps from the sidecar: its program headers are read back from the file itself. */
module ElfLoad {
  import opened Bytes
  import opened Words
  import opened Wrappers
  import opened PeView
  import opened ChainResolve
  import opened CfiRanges
  import opened EhFrame
  import opened EhFrameReader
  import opened EhFrameHdr
  import opened ElfFile
  import opened ElfLayout
  import opened ElfImage
  import UnwindTables

  /** The ten program headers that follow the ELF header. */
  function HeadersOf(file: seq<Byte>): (s: seq<Phdr>)
    requires |file| >= 624
    ensures |s| == 10
  {
    seq(10, i requires 0 <= i < 10 => ReadPhdr(file[64 + 56 * i..120 + 56 * i]))
  }

  predicate InSegment(p: Phdr, va: int) { p.kind == PT_LOAD && p.vaddr <= va < p.vaddr + p.memsz }

  /** The byte a PT_LOAD puts at an address: file contents, then zeros. */
  function SegmentByte(file: seq<Byte>, p: Phdr, va: nat): Byte
    requires InSegment(p, va)
  {
    if va - p.vaddr < p.filesz && p.offset + (va - p.vaddr) < |file| then file[p.offset + (va - p.vaddr)] else 0
  }

  /** Memory after mapping the segments in order. */
  function LoadedByte(file: seq<Byte>, phs: seq<Phdr>, va: nat): Option<Byte> {
    if phs == [] then None
    else
      var n := |phs| - 1;
      if InSegment(phs[n], va) then Some(SegmentByte(file, phs[n], va)) else LoadedByte(file, phs[..n], va)
  }

  ghost predicate InMemory(file: seq<Byte>, va: nat, bytes: seq<Byte>)
    requires |file| >= 624
  {
    forall k: nat :: k < |bytes| ==> LoadedByte(file, HeadersOf(file), va + k) == Some(bytes[k])
  }

  lemma {:induction false} OneSegment(file: seq<Byte>, phs: seq<Phdr>, i: nat, va: nat)
    requires i < |phs| && InSegment(phs[i], va) && forall j :: i < j < |phs| ==> !InSegment(phs[j], va)
    ensures LoadedByte(file, phs, va) == Some(SegmentByte(file, phs[i], va))
  {
    var n := |phs| - 1;
    if i < n {
      assert !InSegment(phs[n], va) && phs[..n][i] == phs[i];
      assert forall j :: i < j < n ==> phs[..n][j] == phs[j];
      OneSegment(file, phs[..n], i, va);
    }
  }

  // ----- the file's own headers

  lemma {:induction false} PieceReads(c: Counts, l: Layout, p: Parts, i: nat)
    requires Laid(c, l, p) && i < 16
    ensures End(Pieces(c, l, p)[i]) <= l.fileSize
    ensures FileOf(c, l, p)[Pieces(c, l, p)[i].at..End(Pieces(c, l, p)[i])] == Pieces(c, l, p)[i].bytes
  {
    PartsApart(c, l, p);
    ElfFile.ReadsBack(Zeros(l.fileSize), Pieces(c, l, p), i);
  }

  lemma {:induction false} HeaderBytes(c: Counts, l: Layout, p: Parts, file: seq<Byte>, i: nat)
    requires Laid(c, l, p) && file == FileOf(c, l, p) && i < 10
    ensures |file| >= 624 && file[64 + 56 * i..120 + 56 * i] == PhdrBytes(Segments(c, l)[i])
  {
    var records := PhdrRecords(Segments(c, l));
    PiecesSplit(c, l, p);
    assert Pieces(c, l, p)[1] == FirstPieces(c, l, p)[1] == Piece(64, Concat(records));
    PieceReads(c, l, p, 1);
    RecordSizes(c, l, p);
    ElfFile.RecordAt(records, 56, i);
    SubSlice(file, 64, Concat(records), 56 * i, 56);
  }

  /** Every number in the headers fits its field: the file has at most 2^63 bytes. */
  predicate Small(l: Layout) { l.fileSize < 0x8000_0000_0000_0000 }

  lemma {:induction false} SegmentInRange(c: Counts, l: Layout, p: Parts, i: nat)
    requires Laid(c, l, p) && Small(l) && i < 10
    ensures ElfImage.InRange(Segments(c, l)[i])
  {
  }

  lemma {:induction false} HeaderReads(c: Counts, l: Layout, p: Parts, file: seq<Byte>, i: nat)
    requires Laid(c, l, p) && Small(l) && file == FileOf(c, l, p) && i < 10
    ensures |file| >= 624 && ReadPhdr(file[64 + 56 * i..120 + 56 * i]) == Segments(c, l)[i]
  {
    HeaderBytes(c, l, p, file, i);
    SegmentInRange(c, l, p, i);
    PhdrRoundTrip(Segments(c, l)[i]);
  }

  /** Reading the program headers from the file gives the segments that were laid out. */
  lemma {:induction false} HeadersRead(c: Counts, l: Layout, p: Parts)
    requires Laid(c, l, p) && Small(l)
    ensures l.fileSize >= 624 && HeadersOf(FileOf(c, l, p)) == Segments(c, l)
  {
    var file := FileOf(c, l, p);
    HeaderReads(c, l, p, file, 0);
    var h := HeadersOf(file);
    forall i: nat | i < 10 ensures h[i] == Segments(c, l)[i] {
      HeaderReads(c, l, p, file, i);
    }
  }

  // ----- what is where

  /** A file whose own headers are those of the layout. */
  predicate Headed(file: seq<Byte>, c: Counts, l: Layout, p: Parts)
    requires Laid(c, l, p)
  {
    |file| == l.fileSize >= 624 && HeadersOf(file) == Segments(c, l)
  }

  /** An address belongs to at most one PT_LOAD, so what that segment maps is what memory holds. */
  lemma {:induction false} MappedOnce(file: seq<Byte>, c: Counts, l: Layout, p: Parts, i: nat, s: Phdr, va: nat)
    requires Laid(c, l, p) && Headed(file, c, l, p) && IsLoad(i) && s == Segments(c, l)[i] && InSegment(s, va)
    ensures s.offset + (va - s.vaddr) < |file| && LoadedByte(file, HeadersOf(file), va)
            == Some(file[s.offset + (va - s.vaddr)])
  {
    var all := Segments(c, l);
    LoadsAscend(c, l, |p.eh|, |p.rest.shstr|);
    assert Mappable(all[i], l.fileSize);
    forall j | i < j < 10 ensures !InSegment(all[j], va) {
      if IsLoad(j) {
        assert PagesBelow(all[i], all[j]);
        BelowApart(all[i], all[j], va);
      } else {
        assert all[j].kind != PT_LOAD;
      }
    }
    OneSegment(file, all, i, va);
  }

  lemma {:induction false} BelowApart(p: Phdr, q: Phdr, va: nat)
    requires PagesBelow(p, q) && InSegment(p, va)
    ensures !InSegment(q, va)
  {
    FloorMonotone(va, p.vaddr + p.memsz - 1);
    if q.vaddr <= va {
      FloorMonotone(q.vaddr, va);
    }
  }

  /** A stretch of the file that one PT_LOAD maps is in memory at the matching address. */
  lemma {:induction false} StretchInMemory(file: seq<Byte>, c: Counts, l: Layout, p: Parts, i: nat, s: Phdr, at: nat,
                                           bytes: seq<Byte>)
    requires Laid(c, l, p) && Headed(file, c, l, p) && IsLoad(i) && s == Segments(c, l)[i] && s.kind == PT_LOAD
    requires s.offset <= at && at + |bytes| <= s.offset + s.memsz && at + |bytes| <= |file|
             && file[at..at + |bytes|] == bytes
    ensures InMemory(file, s.vaddr + (at - s.offset), bytes)
  {
    var va := s.vaddr + (at - s.offset);
    forall k: nat | k < |bytes| ensures LoadedByte(file, HeadersOf(file), va + k) == Some(bytes[k]) {
      assert InSegment(s, va + k);
      MappedOnce(file, c, l, p, i, s, va + k);
      assert file[at + k] == file[at..at + |bytes|][k];
    }
  }

  /** Piece i, mapped by PT_LOAD j. */
  lemma {:induction false} PieceInMemory(c: Counts, l: Layout, p: Parts, i: nat, j: nat, s: Phdr, at: nat,
                                         bytes: seq<Byte>)
    requires Laid(c, l, p) && Small(l) && i < 16 && IsLoad(j) && Pieces(c, l, p)[i] == Piece(at, bytes)
    requires s == Segments(c, l)[j] && s.offset <= at && at + |bytes| <= s.offset + s.memsz
    ensures l.fileSize >= 624 && InMemory(FileOf(c, l, p), s.vaddr + (at - s.offset), bytes)
  {
    PieceReads(c, l, p, i);
    HeadersRead(c, l, p);
    LoadsAscend(c, l, |p.eh|, |p.rest.shstr|);
    StretchInMemory(FileOf(c, l, p), c, l, p, j, s, at, bytes);
  }

  lemma {:induction false} TailHeldByNone(c: Counts, l: Layout, p: Parts, i: nat, a: nat)
    requires Laid(c, l, p) && 4096 + c.image <= a < l.front.dynsym && i < 16
    ensures !ElfFile.Holds(Pieces(c, l, p)[i], a)
  {
    PieceInSlot(c, l, p, i);
    if Slot(i) >= 4 {
      BoundariesAscend(c, l, p, 4, Slot(i));
    } else if i < 3 {
      BoundariesAscend(c, l, p, Slot(i) + 1, 3);
    } else {
      PiecesSplit(c, l, p);
      assert Pieces(c, l, p)[3] == FirstPieces(c, l, p)[3] == Piece(4096, p.image);
    }
  }

  /** From the end of the image to .dynsym the file is zero. */
  lemma {:induction false} TailIsZero(c: Counts, l: Layout, p: Parts, a: nat)
    requires Laid(c, l, p) && 4096 + c.image <= a < l.front.dynsym
    ensures a < l.fileSize && FileOf(c, l, p)[a] == 0
  {
    PartsApart(c, l, p);
    BoundariesAscend(c, l, p, 4, 16);
    forall i: nat | i < 16 ensures !ElfFile.Holds(Pieces(c, l, p)[i], a) {
      TailHeldByNone(c, l, p, i, a);
    }
    Untouched(Zeros(l.fileSize), Pieces(c, l, p), a);
  }

  /** The PE image stands at address 0, as the loader for PE files would place it. */
  lemma {:induction false} ImageInMemory(c: Counts, l: Layout, p: Parts)
    requires Laid(c, l, p) && Small(l)
    ensures l.fileSize >= 624 && InMemory(FileOf(c, l, p), 0, p.image)
  {
    PiecesSplit(c, l, p);
    assert Pieces(c, l, p)[3] == FirstPieces(c, l, p)[3] == Piece(4096, p.image);
    PieceInMemory(c, l, p, 3, 1, Segments(c, l)[1], 4096, p.image);
  }

  lemma {:induction false} TailBytes(c: Counts, l: Layout, p: Parts)
    requires Laid(c, l, p)
    ensures 4096 <= l.front.tail && l.front.tail + 4096 <= l.fileSize
    ensures FileOf(c, l, p)[l.front.tail..l.front.tail + 4096] == Zeros(4096)
  {
    var file, at := FileOf(c, l, p), l.front.tail;
    BoundariesAscend(c, l, p, 4, 16);
    var tail := file[at..at + 4096];
    forall k: nat | k < 4096 ensures tail[k] == 0 {
      TailIsZero(c, l, p, at + k);
    }
  }

  /** The page after the image is zero. */
  lemma {:induction false} TailInMemory(c: Counts, l: Layout, p: Parts)
    requires Laid(c, l, p) && Small(l)
    ensures l.fileSize >= 624 && l.front.tail >= 4096 && InMemory(FileOf(c, l, p), l.front.tail - 4096, Zeros(4096))
  {
    TailBytes(c, l, p);
    HeadersRead(c, l, p);
    TailStretch(FileOf(c, l, p), c, l, p, Segments(c, l)[2], l.front.tail);
  }

  lemma {:induction false} TailStretch(file: seq<Byte>, c: Counts, l: Layout, p: Parts, s: Phdr, at: nat)
    requires Laid(c, l, p) && Headed(file, c, l, p) && s == Segments(c, l)[2] && at == l.front.tail >= 4096
    requires at + 4096 <= |file| && file[at..at + 4096] == Zeros(4096)
    ensures InMemory(file, at - 4096, Zeros(4096))
  {
    assert s == Whole(PT_LOAD, 6, at, at - 4096, 4096, 4096);
    StretchInMemory(file, c, l, p, 2, s, at, Zeros(4096));
  }

  /** The unwind sections stand at the addresses they were built for, and PT_GNU_EH_FRAME points at the table. */
  lemma {:induction false} TablesInMemory(c: Counts, l: Layout, p: Parts)
    requires Laid(c, l, p) && Small(l)
    ensures l.fileSize >= 624
    ensures InMemory(FileOf(c, l, p), l.front.ehFrameHdr, p.hdr) && InMemory(FileOf(c, l, p), l.front.ehFrame, p.eh)
    ensures HeadersOf(FileOf(c, l, p))[8]
            == Whole(PT_GNU_EH_FRAME, 4, l.front.ehFrameHdr, l.front.ehFrameHdr, |p.hdr|, 4)
  {
    HeadersRead(c, l, p);
    TablePieceInMemory(c, l, p, 3, l.front.ehFrameHdr, p.hdr);
    TablePieceInMemory(c, l, p, 4, l.front.ehFrame, p.eh);
  }

  lemma {:induction false} TablePieceInMemory(c: Counts, l: Layout, p: Parts, i: nat, at: nat, bytes: seq<Byte>)
    requires Laid(c, l, p) && Small(l) && 3 <= i < 5 && FinalPieces(l, p)[i] == Piece(at, bytes)
    ensures l.fileSize >= 624 && InMemory(FileOf(c, l, p), at, bytes)
  {
    PiecesSplit(c, l, p);
    assert Pieces(c, l, p)[i + 8] == FinalPieces(l, p)[i];
    FinalInSlot(c, l, p, i);
    BoundariesAscend(c, l, p, 4, i + 8);
    BoundariesAscend(c, l, p, i + 9, 13);
    PieceInMemory(c, l, p, i + 8, 4, Segments(c, l)[4], at, bytes);
  }

  /** Piece i of the metadata segment. */
  lemma {:induction false} MetadataInMemory(c: Counts, l: Layout, p: Parts, i: nat, at: nat, bytes: seq<Byte>)
    requires Laid(c, l, p) && Small(l) && 4 <= i < 8 && FirstPieces(c, l, p)[i] == Piece(at, bytes)
    ensures l.fileSize >= 624 && InMemory(FileOf(c, l, p), at, bytes)
  {
    PiecesSplit(c, l, p);
    assert Pieces(c, l, p)[i] == FirstPieces(c, l, p)[i];
    FirstInSlot(c, l, p, i);
    BoundariesAscend(c, l, p, 4, Slot(i));
    BoundariesAscend(c, l, p, Slot(i) + 1, 13);
    PieceInMemory(c, l, p, i, 4, Segments(c, l)[4], at, bytes);
  }

  lemma {:induction false} JoinInMemory(file: seq<Byte>, va: nat, a: seq<Byte>, b: seq<Byte>)
    requires |file| >= 624 && InMemory(file, va, a) && InMemory(file, va + |a|, b)
    ensures InMemory(file, va, a + b)
  {
    forall k: nat | k < |a + b| ensures LoadedByte(file, HeadersOf(file), va + k) == Some((a + b)[k]) {
      if k >= |a| {
        var j: nat := k - |a|;
        assert LoadedByte(file, HeadersOf(file), va + |a| + j) == Some(b[j]);
      }
    }
  }

  /** So do the three sections a name lookup reads. */
  lemma {:induction false} SymbolsInMemory(c: Counts, l: Layout, p: Parts)
    requires Laid(c, l, p) && Small(l)
    ensures l.fileSize >= 624
    ensures InMemory(FileOf(c, l, p), l.front.dynsym, p.rest.nullSymbol + Concat(p.rest.symbols))
    ensures InMemory(FileOf(c, l, p), l.front.dynstr, p.rest.dynstr)
            && InMemory(FileOf(c, l, p), l.front.hash, p.rest.hash)
  {
    MetadataInMemory(c, l, p, 4, l.front.dynstr, p.rest.dynstr);
    MetadataInMemory(c, l, p, 5, l.front.dynsym, p.rest.nullSymbol);
    MetadataInMemory(c, l, p, 6, l.front.dynsym + 24, Concat(p.rest.symbols));
    MetadataInMemory(c, l, p, 7, l.front.hash, p.rest.hash);
    JoinInMemory(FileOf(c, l, p), l.front.dynsym, p.rest.nullSymbol, Concat(p.rest.symbols));
  }

  /**
   * The sidecar as a whole: mapping the file BuildElf wrote puts the image at 0 and the tables where its headers say,
   * and those tables give, for every code address, the row of the prolog operations executed by then.
   */
  lemma {:induction false} SidecarUnwinds(pe: Pe, functions: seq<RuntimeFunction>, cfi: seq<CfiRange>,
                                          paths: seq<seq<U32>>,
                                          ranges: seq<CfiRange>, c: Counts, l: Layout, p: Parts, a: nat, sp: int)
    requires Describes(cfi, functions, RecordsOf(pe), paths) && ExactCover(ranges, cfi, pe.executable)
    requires Laid(c, l, p) && l.fileSize < 0x4000_0000_0000_0000 && |p.eh| <= 0x1_0000_0000
    requires EhFrameBytes(l.front.ehFrame, 0, ranges) == Some(p.eh)
    requires TableLeads(p.hdr, l.front.ehFrameHdr, l.front.ehFrame, 0, ranges, FdeStarts(ranges))
    ensures l.fileSize >= 624 && InMemory(FileOf(c, l, p), 0, p.image)
    ensures InMemory(FileOf(c, l, p), l.front.ehFrameHdr, p.hdr) && InMemory(FileOf(c, l, p), l.front.ehFrame, p.eh)
    ensures UnwindTables.Unwinds(pe, p.hdr, l.front.ehFrameHdr, p.eh, l.front.ehFrame, 0, ranges, a, sp)
  {
    ImageInMemory(c, l, p);
    TablesInMemory(c, l, p);
    UnwindTables.UnwindsEverywhere(pe, p.hdr, l.front.ehFrameHdr, p.eh, l.front.ehFrame, 0, functions, cfi, paths,
                                   ranges, a, sp);
  }
}
