/**
 * Runtime functions, and the tiling of all code by call-frame ranges (src/pe_sidecar.cpp:284-314, 470-477, 645-670).
 */
module CfiRanges {
  import opened Bytes
  import opened Wrappers
  import opened Sorting
  import opened Spans
  import opened Prolog
  import opened PeView
  import opened Sections
  import opened ChainResolve

  datatype RuntimeFunction = RuntimeFunction(begin: U32, end: U32, unwind: U32)

  /** A stretch of code with the operations that describe its frame; gaps between functions have none. */
  datatype CfiRange = CfiRange(begin: U32, end: U32, inherited: seq<Operation>, operations: seq<Operation>)

  function Gap(begin: U32, end: U32): CfiRange { CfiRange(begin, end, [], []) }

  // ----- the exception directory

  predicate AcceptableFunction(pe: Pe, f: RuntimeFunction) {
    && 0 < f.begin < f.end
    && InRange(pe, f.begin, f.end - f.begin, pe.executable)
    && f.unwind % 4 == 0
    && InRange(pe, f.unwind, 4, pe.mapped)
  }

  function FunctionAt(pe: Pe, offset: nat): RuntimeFunction
    requires offset + 12 <= |pe.image|
  {
    RuntimeFunction(U32At(pe.image, offset), U32At(pe.image, offset + 4), U32At(pe.image, offset + 8))
  }

  const FUNCTION_BEGIN: RuntimeFunction -> int := (f: RuntimeFunction) => f.begin

  const FUNCTION_END: RuntimeFunction -> int := (f: RuntimeFunction) => f.end

  /** Ascending, disjoint, and each inside one code range. */
  predicate ProperFunctions(fs: seq<RuntimeFunction>, executable: seq<Range>) {
    && (forall i :: 0 <= i < |fs| ==>
          fs[i].begin < fs[i].end && Contained(fs[i].begin, fs[i].end - fs[i].begin, executable))
    && (forall i, j :: 0 <= i < j < |fs| ==> fs[i].end <= fs[j].begin)
  }

  predicate NeighboursApart(fs: seq<RuntimeFunction>) { forall i :: 1 <= i < |fs| ==> fs[i - 1].end <= fs[i].begin }

  /** Row k of the directory. */
  function Row(pe: Pe, rva: U32, k: nat): RuntimeFunction
    requires rva + 12 * k + 12 <= |pe.image|
  {
    FunctionAt(pe, rva + 12 * k)
  }

  function Rows(pe: Pe, rva: U32, n: nat): seq<RuntimeFunction>
    requires rva + 12 * n <= |pe.image|
  {
    seq(n, k requires 0 <= k < n => Row(pe, rva, k))
  }

  predicate AllAcceptableFunctions(pe: Pe, fs: seq<RuntimeFunction>) {
    forall i :: 0 <= i < |fs| ==> AcceptableFunction(pe, fs[i])
  }

  method ReadRows(pe: Pe, rva: U32, size: U32) returns (ok: bool, rows: seq<RuntimeFunction>)
    requires size % 12 == 0 && rva + size <= |pe.image|
    ensures ok <==> AllAcceptableFunctions(pe, Rows(pe, rva, size / 12))
    ensures ok ==> rows == Rows(pe, rva, size / 12)
  {
    ghost var n := size / 12;
    rows := [];
    var offset: nat := rva;
    while offset < rva + size
      invariant |rows| <= n && offset == rva + 12 * |rows|
      invariant rows == Rows(pe, rva, n)[..|rows|] && AllAcceptableFunctions(pe, rows)
      decreases rva + size - offset
    {
      assert |rows| < n;
      var f := FunctionAt(pe, offset);
      assert Rows(pe, rva, n)[|rows|] == f;
      if !AcceptableFunction(pe, f) {
        return false, rows;
      }
      rows := rows + [f];
      offset := offset + 12;
    }
    ok := true;
  }

  method CheckNeighbours(fs: seq<RuntimeFunction>) returns (ok: bool)
    ensures ok == NeighboursApart(fs)
  {
    var index := 1;
    while index < |fs|
      invariant 1 <= index
      invariant forall i :: 1 <= i < index && i < |fs| ==> fs[i - 1].end <= fs[i].begin
    {
      if fs[index].begin < fs[index - 1].end {
        return false;
      }
      index := index + 1;
    }
    ok := true;
  }

  predicate NoOverlap(f: RuntimeFunction, g: RuntimeFunction) { f.end <= g.begin || g.end <= f.begin }

  predicate FunctionsApart(fs: seq<RuntimeFunction>) { forall i, j :: 0 <= i < j < |fs| ==> NoOverlap(fs[i], fs[j]) }

  predicate NonEmptyFunctions(fs: seq<RuntimeFunction>) { forall i :: 0 <= i < |fs| ==> fs[i].begin < fs[i].end }

  /** Sorting by begin and comparing neighbours decides whether any two functions overlap. */
  lemma {:induction false} NeighbourCheckExact(rows: seq<RuntimeFunction>)
    requires NonEmptyFunctions(rows)
    ensures NeighboursApart(SortBy(rows, FUNCTION_BEGIN)) <==> FunctionsApart(rows)
  {
    NeighbourCheck(rows, FUNCTION_BEGIN, FUNCTION_END);
  }

  /** What parse_pe accepts as an exception directory. */
  predicate AcceptableDirectory(pe: Pe, rva: U32, size: U32) {
    && (rva != 0 <==> size != 0) && size % 12 == 0 && (size > 0 ==> InRange(pe, rva, size, pe.mapped))
    && (size > 0 ==> AllAcceptableFunctions(pe, Rows(pe, rva, size / 12)) && FunctionsApart(Rows(pe, rva, size / 12)))
  }

  /** The functions of an acceptable directory, in ascending order. */
  function SortedFunctions(pe: Pe, rva: U32, size: U32): seq<RuntimeFunction>
    requires size > 0 ==> rva + size <= |pe.image|
  {
    if size == 0 then [] else SortBy(Rows(pe, rva, size / 12), FUNCTION_BEGIN)
  }

  /** Sorts the rows and rejects overlaps. */
  method SortRows(pe: Pe, rows: seq<RuntimeFunction>) returns (ok: bool, functions: seq<RuntimeFunction>)
    requires AllAcceptableFunctions(pe, rows)
    ensures ok <==> FunctionsApart(rows)
    ensures ok ==> ProperFunctions(functions, pe.executable) && AllAcceptableFunctions(pe, functions)
    ensures functions == SortBy(rows, FUNCTION_BEGIN)
  {
    functions := SortBy(rows, FUNCTION_BEGIN);
    NeighbourCheckExact(rows);
    forall i | 0 <= i < |functions| ensures AcceptableFunction(pe, functions[i]) {
      assert functions[i] in rows;
    }
    ok := CheckNeighbours(functions);
    if ok {
      forall i, j | 0 <= i < j < |functions| ensures functions[i].end <= functions[j].begin {
        NeighboursSuffice(functions, FUNCTION_BEGIN, FUNCTION_END, i, j);
      }
    }
  }

  /** Accepts exactly the well-formed directories, and gives their rows in ascending order. */
  method ReadRuntimeFunctions(pe: Pe, rva: U32, size: U32) returns (ok: bool, functions: seq<RuntimeFunction>)
    ensures ok <==> AcceptableDirectory(pe, rva, size)
    ensures ok ==> ProperFunctions(functions, pe.executable) && AllAcceptableFunctions(pe, functions)
    ensures ok ==> functions == SortedFunctions(pe, rva, size)
  {
    if (rva != 0) != (size != 0) || size % 12 != 0 || (size > 0 && !InRange(pe, rva, size, pe.mapped)) {
      return false, [];
    }
    if size == 0 {
      return true, [];
    }
    var rows;
    ok, rows := ReadRows(pe, rva, size);
    if !ok {
      return false, [];
    }
    ok, functions := SortRows(pe, rows);
  }

  // ----- attaching operations

  /** cfi gives each function, in order, the operations of its record's chain. */
  predicate Describes(cfi: seq<CfiRange>, fs: seq<RuntimeFunction>, rec: Records, paths: seq<seq<U32>>) {
    && |cfi| == |fs| == |paths|
    && forall i :: 0 <= i < |fs| ==> DescribesOne(cfi[i], fs[i], rec, paths[i])
  }

  predicate DescribesOne(c: CfiRange, f: RuntimeFunction, rec: Records, path: seq<U32>) {
    && c.begin == f.begin && c.end == f.end
    && IsChain(rec, path) && path[0] == f.unwind
    && c.inherited == ChainInfo(rec, path).inherited && c.operations == ChainInfo(rec, path).operations
    && f.begin <= f.end && ChainInfo(rec, path).prologSize <= f.end - f.begin
  }

  lemma {:induction false} DescribesMore(cfi: seq<CfiRange>, fs: seq<RuntimeFunction>, n: nat, rec: Records,
                                         paths: seq<seq<U32>>, c: CfiRange, path: seq<U32>)
    requires n < |fs| && Describes(cfi, fs[..n], rec, paths) && DescribesOne(c, fs[n], rec, path)
    ensures Describes(cfi + [c], fs[..n + 1], rec, paths + [path])
  {
  }

  /** The records on these paths. */
  function OnPaths(paths: seq<seq<U32>>): set<U32> {
    if paths == [] then {} else OnPaths(paths[..|paths| - 1]) + OnPath(paths[|paths| - 1])
  }

  function OnPath(path: seq<U32>): set<U32> { set r | r in path }

  /** A function's record resolves with those of the functions before it cached, and its prolog fits the function. */
  predicate Resolves(f: RuntimeFunction, rec: Records, path: seq<U32>, cached: set<U32>) {
    && Resolvable(rec, path, f.unwind, 0, cached)
    && f.begin <= f.end && ChainInfo(rec, path).prologSize <= f.end - f.begin
  }

  /** All functions resolve, in order, along these paths. */
  predicate AllResolve(fs: seq<RuntimeFunction>, rec: Records, paths: seq<seq<U32>>) {
    |paths| == |fs| && forall i :: 0 <= i < |fs| ==> Resolves(fs[i], rec, paths[i], OnPaths(paths[..i]))
  }

  /** What the sidecar accepts: the order matters, since a cached parent shortens the recursion. */
  ghost predicate Describable(fs: seq<RuntimeFunction>, rec: Records) { exists paths :: AllResolve(fs, rec, paths) }

  lemma {:induction false} ResolvesMore(fs: seq<RuntimeFunction>, n: nat, rec: Records, paths: seq<seq<U32>>,
                                        path: seq<U32>)
    requires n < |fs| && AllResolve(fs[..n], rec, paths) && Resolves(fs[n], rec, path, OnPaths(paths))
    ensures AllResolve(fs[..n + 1], rec, paths + [path]) && OnPaths(paths + [path]) == OnPaths(paths) + OnPath(path)
  {
    var more := paths + [path];
    assert more[..n] == paths;
    forall i | 0 <= i < n ensures Resolves(fs[i], rec, more[i], OnPaths(more[..i])) {
      assert more[..i] == paths[..i] && fs[..n][i] == fs[i];
    }
  }

  lemma {:induction false} SamePaths(fs: seq<RuntimeFunction>, n: nat, rec: Records, paths: seq<seq<U32>>,
                                     all: seq<seq<U32>>)
    requires n <= |fs| && AllResolve(fs[..n], rec, paths) && AllResolve(fs, rec, all)
    ensures all[..n] == paths
  {
    forall i | 0 <= i < n ensures all[i] == paths[i] {
      assert Resolves(fs[..n][i], rec, paths[i], OnPaths(paths[..i]))
             && Resolves(fs[i], rec, all[i], OnPaths(all[..i]));
      ChainUnique(rec, paths[i], all[i]);
    }
  }

  lemma {:induction false} ResolvedAt(fs: seq<RuntimeFunction>, n: nat, rec: Records, paths: seq<seq<U32>>,
                                      all: seq<seq<U32>>)
    requires n < |fs| && AllResolve(fs[..n], rec, paths) && AllResolve(fs, rec, all)
    ensures exists path :: Resolves(fs[n], rec, path, OnPaths(paths))
  {
    SamePaths(fs, n, rec, paths, all);
    assert Resolves(fs[n], rec, all[n], OnPaths(all[..n]));
  }

  /** One function that does not resolve after the others makes the list not describable. */
  lemma {:induction false} NotDescribable(fs: seq<RuntimeFunction>, n: nat, rec: Records, paths: seq<seq<U32>>)
    requires n < |fs| && AllResolve(fs[..n], rec, paths)
    requires forall path :: !Resolves(fs[n], rec, path, OnPaths(paths))
    ensures !Describable(fs, rec)
  {
    forall all ensures !AllResolve(fs, rec, all) {
      if AllResolve(fs, rec, all) {
        ResolvedAt(fs, n, rec, paths, all);
      }
    }
  }

  /** A prolog longer than the function: no other path could help. */
  lemma {:induction false} TooLong(f: RuntimeFunction, rec: Records, path: seq<U32>, cached: set<U32>)
    requires IsChain(rec, path) && path[0] == f.unwind
    requires f.begin > f.end || ChainInfo(rec, path).prologSize > f.end - f.begin
    ensures forall other :: !Resolves(f, rec, other, cached)
  {
    forall other ensures !Resolves(f, rec, other, cached) {
      if Resolves(f, rec, other, cached) {
        ChainUnique(rec, path, other);
      }
    }
  }

  /** One function: its record resolved, or no way to. */
  method DescribeOne(resolver: Resolver, f: RuntimeFunction, ghost cached: set<U32>)
    returns (ok: bool, c: CfiRange, ghost path: seq<U32>)
    requires resolver.Valid() && resolver.stack == [] && resolver.cache.Keys == cached && f.begin < f.end
    modifies resolver
    ensures ok ==> resolver.Valid() && resolver.stack == [] && resolver.cache.Keys == cached + OnPath(path)
    ensures ok ==> DescribesOne(c, f, resolver.rec, path) && Resolves(f, resolver.rec, path, cached)
    ensures !ok ==> forall other :: !Resolves(f, resolver.rec, other, cached)
  {
    c, path := Gap(f.begin, f.end), [];
    assert [] + [f.unwind] == [f.unwind];
    var unwind := resolver.Resolve(f.unwind);
    if unwind.None? {
      assert forall other :: !Resolvable(resolver.rec, other, f.unwind, 0, cached);
      return false, c, path;
    }
    path := resolver.paths[f.unwind];
    resolver.CachesAll(f.unwind, path);
    if unwind.value.prologSize > f.end - f.begin {
      TooLong(f, resolver.rec, path, cached);
      return false, c, path;
    }
    c := CfiRange(f.begin, f.end, unwind.value.inherited, unwind.value.operations);
    ok := true;
  }

  method BuildCfi(resolver: Resolver, functions: seq<RuntimeFunction>) returns (ok: bool, cfi: seq<CfiRange>,
                  ghost paths: seq<seq<U32>>)
    requires resolver.Valid() && resolver.stack == [] && resolver.cache == map[]
    requires forall i :: 0 <= i < |functions| ==> functions[i].begin < functions[i].end
    modifies resolver
    ensures ok <==> Describable(functions, resolver.rec)
    ensures ok ==> Describes(cfi, functions, resolver.rec, paths)
  {
    cfi, paths := [], [];
    var index := 0;
    while index < |functions|
      invariant 0 <= index <= |functions| && resolver.Valid() && resolver.stack == []
      invariant Describes(cfi, functions[..index], resolver.rec, paths)
      invariant AllResolve(functions[..index], resolver.rec, paths) && resolver.cache.Keys == OnPaths(paths)
    {
      var c;
      ghost var path;
      ok, c, path := DescribeOne(resolver, functions[index], OnPaths(paths));
      if !ok {
        NotDescribable(functions, index, resolver.rec, paths);
        return false, [], [];
      }
      DescribesMore(cfi, functions, index, resolver.rec, paths, c, path);
      ResolvesMore(functions, index, resolver.rec, paths, path);
      cfi, paths := cfi + [c], paths + [path];
      index := index + 1;
    }
    assert functions[..index] == functions;
    ok := true;
  }

  // ----- tiling

  function Min(a: U32, b: U32): U32 { if a < b then a else b }

  function Max(a: U32, b: U32): U32 { if a < b then b else a }

  /** The uncovered stretches of [position, end), given ascending functions. */
  function Gaps(position: U32, end: U32, fs: seq<RuntimeFunction>): seq<CfiRange>
    decreases |fs|
  {
    if fs == [] then if position < end then [Gap(position, end)] else []
    else
      var f := fs[0];
      if f.end <= position || f.begin >= end then Gaps(position, end, fs[1..])
      else
        (if f.begin > position then [Gap(position, Min(f.begin, end))] else []) +
        (if Max(position, f.end) >= end then [] else Gaps(Max(position, f.end), end, fs[1..]))
  }

  function AllGaps(executable: seq<Range>, fs: seq<RuntimeFunction>): seq<CfiRange> {
    if executable == [] then []
    else Gaps(executable[0].begin, executable[0].end, fs) + AllGaps(executable[1..], fs)
  }

  const RANGE_BEGIN: CfiRange -> int := (c: CfiRange) => c.begin

  method SectionGaps(section: Range, functions: seq<RuntimeFunction>, ranges: seq<CfiRange>) returns (r: seq<CfiRange>)
    ensures r == ranges + Gaps(section.begin, section.end, functions)
  {
    r := ranges;
    var position: U32 := section.begin;
    var i := 0;
    while i < |functions|
      invariant 0 <= i <= |functions|
      invariant ranges + Gaps(section.begin, section.end, functions) == r + Gaps(position, section.end, functions[i..])
    {
      var f := functions[i];
      ghost var before, was := r, position;
      i := i + 1;
      if f.end <= position || f.begin >= section.end {
        continue;
      }
      ghost var first := if f.begin > position then [Gap(position, Min(f.begin, section.end))] else [];
      if f.begin > position {
        r := r + [Gap(position, Min(f.begin, section.end))];
      }
      position := Max(position, f.end);
      if position >= section.end {
        return r;
      }
      Assoc(before, first, Gaps(position, section.end, functions[i..]));
    }
    if position < section.end {
      r := r + [Gap(position, section.end)];
    }
  }

  method MakeCfiRanges(cfi: seq<CfiRange>, functions: seq<RuntimeFunction>,
                       executable: seq<Range>) returns (ranges: seq<CfiRange>)
    ensures ranges == SortBy(cfi + AllGaps(executable, functions), RANGE_BEGIN)
  {
    var unsorted := PushGaps(cfi, functions, executable);
    ranges := SortBy(unsorted, RANGE_BEGIN);
  }

  method PushGaps(cfi: seq<CfiRange>, functions: seq<RuntimeFunction>,
                  executable: seq<Range>) returns (ranges: seq<CfiRange>)
    ensures ranges == cfi + AllGaps(executable, functions)
  {
    ranges := cfi;
    var s := 0;
    assert executable[0..] == executable;
    while s < |executable|
      invariant 0 <= s <= |executable|
      invariant cfi + AllGaps(executable, functions) == ranges + AllGaps(executable[s..], functions)
    {
      ghost var before := ranges;
      ranges := SectionGaps(executable[s], functions, ranges);
      assert executable[s..][1..] == executable[s + 1..];
      Assoc(before, Gaps(executable[s].begin, executable[s].end, functions), AllGaps(executable[s + 1..], functions));
      s := s + 1;
    }
  }

  // ----- exact cover

  predicate Holds(c: CfiRange, a: int) { c.begin <= a < c.end }

  predicate InFunction(fs: seq<RuntimeFunction>, a: int) { exists i :: 0 <= i < |fs| && fs[i].begin <= a < fs[i].end }

  predicate InRanges(r: seq<Range>, a: int) { exists i :: 0 <= i < |r| && r[i].begin <= a < r[i].end }

  predicate Covered(cs: seq<CfiRange>, a: int) { exists i :: 0 <= i < |cs| && Holds(cs[i], a) }

  predicate AscendingFunctions(fs: seq<RuntimeFunction>) {
    && (forall i :: 0 <= i < |fs| ==> fs[i].begin < fs[i].end)
    && (forall i, j :: 0 <= i < j < |fs| ==> fs[i].end <= fs[j].begin)
  }

  /** Ascending non-empty ranges, each ending before the next begins. */
  predicate Separated(cs: seq<CfiRange>) {
    && (forall i :: 0 <= i < |cs| ==> cs[i].begin < cs[i].end)
    && (forall i, j :: 0 <= i < j < |cs| ==> cs[i].end <= cs[j].begin)
  }

  lemma {:induction false} CoveredAppend(x: seq<CfiRange>, y: seq<CfiRange>, a: int)
    ensures Covered(x + y, a) <==> Covered(x, a) || Covered(y, a)
  {
    if Covered(y, a) {
      var i :| 0 <= i < |y| && Holds(y[i], a);
      assert (x + y)[|x| + i] == y[i];
    }
    if Covered(x, a) {
      var i :| 0 <= i < |x| && Holds(x[i], a);
      assert (x + y)[i] == x[i];
    }
  }

  lemma {:induction false} SeparatedCons(first: CfiRange, more: seq<CfiRange>)
    requires first.begin < first.end && Separated(more) && forall c :: c in more ==> first.end <= c.begin
    ensures Separated([first] + more)
  {
  }

  /** Gaps are empty of operations, lie in the stretch, and are separated. */
  predicate GapsIn(cs: seq<CfiRange>, position: int, end: int) {
    Separated(cs) && forall c :: c in cs ==> position <= c.begin && c.end <= end && c == Gap(c.begin, c.end)
  }

  lemma {:induction false} GapsInCons(position: U32, until: U32, more: seq<CfiRange>, from: U32, end: U32)
    requires GapsIn(more, from, end) && position <= from && until <= from && until <= end
    ensures GapsIn((if until > position then [Gap(position, until)] else []) + more, position, end)
  {
    if until > position {
      SeparatedCons(Gap(position, until), more);
    } else {
      assert [] + more == more;
    }
  }

  lemma {:induction false} GapsSeparated(position: U32, end: U32, fs: seq<RuntimeFunction>)
    requires AscendingFunctions(fs)
    ensures GapsIn(Gaps(position, end, fs), position, end)
    decreases |fs|
  {
    if fs != [] {
      var f := fs[0];
      if f.end <= position || f.begin >= end {
        GapsSeparated(position, end, fs[1..]);
      } else {
        var from := Max(position, f.end);
        var more := if from >= end then [] else Gaps(from, end, fs[1..]);
        if from < end {
          GapsSeparated(from, end, fs[1..]);
        }
        GapsInCons(position, Min(f.begin, end), more, from, end);
      }
    }
  }

  /** An address of the stretch is in a gap just when it is in no function. */
  lemma {:induction false} GapsCover(position: U32, end: U32, fs: seq<RuntimeFunction>, a: int)
    requires AscendingFunctions(fs)
    ensures Covered(Gaps(position, end, fs), a) <==> position <= a < end && !InFunction(fs, a)
    decreases |fs|
  {
    if fs == [] {
      if position < end {
        assert Covered([Gap(position, end)], a) <==> position <= a < end by {
          if position <= a < end { assert Holds([Gap(position, end)][0], a); }
        }
      }
    } else {
      var f, later := fs[0], fs[1..];
      FunctionSplit(fs, a);
      if f.end <= position || f.begin >= end {
        GapsCover(position, end, later, a);
      } else {
        var first := if f.begin > position then [Gap(position, Min(f.begin, end))] else [];
        var more := if Max(position, f.end) >= end then [] else Gaps(Max(position, f.end), end, later);
        CoveredAppend(first, more, a);
        assert Covered(first, a) <==> position <= a < Min(f.begin, end) by {
          if position <= a < Min(f.begin, end) { assert Holds(first[0], a); }
        }
        if Max(position, f.end) < end {
          GapsCover(Max(position, f.end), end, later, a);
        }
        if InFunction(later, a) {
          var i :| 0 <= i < |later| && later[i].begin <= a < later[i].end;
          assert f.end <= fs[i + 1].begin;
        }
      }
    }
  }

  lemma {:induction false} FunctionSplit(fs: seq<RuntimeFunction>, a: int)
    requires fs != []
    ensures InFunction(fs, a) <==> fs[0].begin <= a < fs[0].end || InFunction(fs[1..], a)
  {
    if InFunction(fs[1..], a) {
      var i :| 0 <= i < |fs[1..]| && fs[1..][i].begin <= a < fs[1..][i].end;
      assert fs[i + 1].begin <= a < fs[i + 1].end;
    }
    if InFunction(fs, a) && !(fs[0].begin <= a < fs[0].end) {
      var i :| 0 <= i < |fs| && fs[i].begin <= a < fs[i].end;
      assert fs[1..][i - 1] == fs[i];
    }
  }

  lemma {:induction false} AllGapsCover(executable: seq<Range>, fs: seq<RuntimeFunction>, a: int)
    requires AscendingFunctions(fs)
    ensures Covered(AllGaps(executable, fs), a) <==> InRanges(executable, a) && !InFunction(fs, a)
    decreases |executable|
  {
    if executable != [] {
      var e := executable[0];
      GapsCover(e.begin, e.end, fs, a);
      AllGapsCover(executable[1..], fs, a);
      CoveredAppend(Gaps(e.begin, e.end, fs), AllGaps(executable[1..], fs), a);
      assert InRanges(executable, a) <==> e.begin <= a < e.end || InRanges(executable[1..], a) by {
        if InRanges(executable[1..], a) {
          var i :| 0 <= i < |executable[1..]| && executable[1..][i].begin <= a < executable[1..][i].end;
          assert executable[i + 1] == executable[1..][i];
        }
        if InRanges(executable, a) && !(e.begin <= a < e.end) {
          var i :| 0 <= i < |executable| && executable[i].begin <= a < executable[i].end;
          assert executable[1..][i - 1] == executable[i];
        }
      }
    }
  }

  predicate Off(x: CfiRange, y: CfiRange) { x.end <= y.begin || y.end <= x.begin }

  predicate PairwiseOff(cs: seq<CfiRange>) {
    && (forall i :: 0 <= i < |cs| ==> cs[i].begin < cs[i].end)
    && (forall i, j :: 0 <= i < j < |cs| ==> Off(cs[i], cs[j]))
  }

  /** Two lists whose ranges share no address stay pairwise disjoint when joined. */
  lemma {:induction false} OffAppend(x: seq<CfiRange>, y: seq<CfiRange>)
    requires PairwiseOff(x) && PairwiseOff(y)
    requires forall a :: Covered(x, a) ==> !Covered(y, a)
    ensures PairwiseOff(x + y)
  {
    forall i, j | 0 <= i < |x| && 0 <= j < |y| ensures Off(x[i], y[j]) {
      var a := if x[i].begin < y[j].begin then y[j].begin else x[i].begin;
      assert Holds(x[i], a) ==> Covered(x, a);
      assert Holds(y[j], a) ==> Covered(y, a);
    }
  }

  lemma {:induction false} OnlyOneRange(r: seq<Range>, a: int)
    requires r != [] && PairwiseApart(r) && r[0].begin <= a < r[0].end
    ensures !InRanges(r[1..], a)
  {
    forall i | 0 <= i < |r[1..]| ensures !(r[1..][i].begin <= a < r[1..][i].end) {
      assert Apart(r[0], r[i + 1]);
    }
  }

  lemma {:induction false} AllGapsOff(executable: seq<Range>, fs: seq<RuntimeFunction>)
    requires AscendingFunctions(fs) && NonEmpty(executable) && PairwiseApart(executable)
    ensures PairwiseOff(AllGaps(executable, fs))
    decreases |executable|
  {
    if executable != [] {
      var e, more := executable[0], executable[1..];
      GapsSeparated(e.begin, e.end, fs);
      AllGapsOff(more, fs);
      forall a | Covered(Gaps(e.begin, e.end, fs), a) ensures !Covered(AllGaps(more, fs), a) {
        GapsCover(e.begin, e.end, fs, a);
        AllGapsCover(more, fs, a);
        OnlyOneRange(executable, a);
      }
      OffAppend(Gaps(e.begin, e.end, fs), AllGaps(more, fs));
    }
  }

  lemma {:induction false} AllGapsEmpty(executable: seq<Range>, fs: seq<RuntimeFunction>)
    requires AscendingFunctions(fs)
    ensures forall c :: c in AllGaps(executable, fs) ==> c == Gap(c.begin, c.end)
    decreases |executable|
  {
    if executable != [] {
      GapsSeparated(executable[0].begin, executable[0].end, fs);
      AllGapsEmpty(executable[1..], fs);
    }
  }

  lemma {:induction false} SortedIsSeparated(cs: seq<CfiRange>)
    requires PairwiseOff(cs)
    ensures Separated(SortBy(cs, RANGE_BEGIN))
    ensures forall a :: Covered(SortBy(cs, RANGE_BEGIN), a) <==> Covered(cs, a)
  {
    var s := SortBy(cs, RANGE_BEGIN);
    assert Distinct(cs) by {
      forall i, j | 0 <= i < j < |cs| ensures cs[i] != cs[j] { assert Off(cs[i], cs[j]); }
    }
    SortedDistinct(cs, RANGE_BEGIN);
    forall i | 0 <= i < |s| ensures s[i].begin < s[i].end { assert s[i] in cs; }
    forall i, j | 0 <= i < j < |s| ensures s[i].end <= s[j].begin {
      assert s[i] in cs && s[j] in cs && s[i] != s[j];
      assert RANGE_BEGIN(s[i]) <= RANGE_BEGIN(s[j]);
    }
    forall a ensures Covered(s, a) <==> Covered(cs, a) { SameMembersCover(s, cs, a); }
  }

  lemma {:induction false} SameMembersCover(x: seq<CfiRange>, y: seq<CfiRange>, a: int)
    requires forall c :: c in x <==> c in y
    ensures Covered(x, a) <==> Covered(y, a)
  {
    if Covered(x, a) { var i :| 0 <= i < |x| && Holds(x[i], a); assert x[i] in y; }
    if Covered(y, a) { var i :| 0 <= i < |y| && Holds(y[i], a); assert y[i] in x; }
  }

  /** The list of call-frame ranges is a tiling of exactly the code. */
  ghost predicate ExactCover(ranges: seq<CfiRange>, cfi: seq<CfiRange>, executable: seq<Range>) {
    && Separated(ranges)
    && (forall a :: Covered(ranges, a) <==> InRanges(executable, a))
    && (forall c :: c in cfi ==> c in ranges)
    && (forall c :: c in ranges ==> c in cfi || c == Gap(c.begin, c.end))
  }

  predicate SameExtents(cfi: seq<CfiRange>, fs: seq<RuntimeFunction>) {
    |cfi| == |fs| && forall i :: 0 <= i < |fs| ==> cfi[i].begin == fs[i].begin && cfi[i].end == fs[i].end
  }

  lemma {:induction false} CfiCovers(cfi: seq<CfiRange>, fs: seq<RuntimeFunction>, a: int)
    requires SameExtents(cfi, fs)
    ensures Covered(cfi, a) <==> InFunction(fs, a)
  {
    if Covered(cfi, a) { var i :| 0 <= i < |cfi| && Holds(cfi[i], a); assert fs[i].begin <= a < fs[i].end; }
    if InFunction(fs, a) { var i :| 0 <= i < |fs| && fs[i].begin <= a < fs[i].end; assert Holds(cfi[i], a); }
  }

  /**
   * Main result: for an accepted image the ranges are separated, cover each code address once and nothing else,
   * contain every function with its own operations, and give every other range no operations.
   */
  lemma {:induction false} TilesAllCode(cfi: seq<CfiRange>, fs: seq<RuntimeFunction>, executable: seq<Range>)
    requires ProperFunctions(fs, executable) && SameExtents(cfi, fs)
    requires NonEmpty(executable) && PairwiseApart(executable)
    ensures ExactCover(SortBy(cfi + AllGaps(executable, fs), RANGE_BEGIN), cfi, executable)
  {
    var gaps := AllGaps(executable, fs);
    AllGapsOff(executable, fs);
    AllGapsEmpty(executable, fs);
    forall a ensures Covered(cfi, a) ==> !Covered(gaps, a)
             ensures Covered(cfi + gaps, a) <==> InRanges(executable, a)
    {
      CfiCovers(cfi, fs, a);
      AllGapsCover(executable, fs, a);
      CoveredAppend(cfi, gaps, a);
      if InFunction(fs, a) {
        var i :| 0 <= i < |fs| && fs[i].begin <= a < fs[i].end;
        var k :| 0 <= k < |executable| && Within(fs[i].begin, fs[i].end - fs[i].begin, executable[k]);
        assert executable[k].begin <= a < executable[k].end;
      }
    }
    OffAppend(cfi, gaps);
    SortedIsSeparated(cfi + gaps);
  }
}
