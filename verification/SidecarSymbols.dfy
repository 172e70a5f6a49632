/** The sidecar's dynamic symbols and their hash index (src/pe_sidecar.cpp:807-847, 965-979). */
module SidecarSymbols {
  import opened Bytes
  import opened SymbolHash
  import opened CfiRanges

  datatype Export = Export(name: Name, rva: U32)

  /** lookup is false for PE exports, which must not be found by name. */
  datatype Symbol = Symbol(name: Name, value: nat, size: nat, lookup: bool)

  function Ascii(s: string): Name { seq(|s|, i requires 0 <= i < |s| => s[i] as int % 0x100) }

  const IMAGE_START := "__lnw_pe_image_start"
  const IMAGE_END := "__lnw_pe_image_end"
  const SOURCE_SIZE := "__lnw_pe_source_size"
  const SOURCE_FINGERPRINT := "__lnw_pe_source_fingerprint"
  const SIDECAR_VERSION := "__lnw_sidecar_version"

  function Metadata(imageSize: nat): seq<Symbol> {
    [Symbol(Ascii(IMAGE_START), 0, imageSize, true),
     Symbol(Ascii(IMAGE_END), imageSize, 0, true),
     Symbol(Ascii(SOURCE_SIZE), 0, 8, true),
     Symbol(Ascii(SOURCE_FINGERPRINT), 0, 8, true),
     Symbol(Ascii(SIDECAR_VERSION), 0, 8, true)]
  }

  predicate DistinctNames(symbols: seq<Symbol>) {
    forall i, j :: 0 <= i < j < |symbols| ==> symbols[i].name != symbols[j].name
  }

  predicate Named(symbols: seq<Symbol>, name: Name) { exists i :: 0 <= i < |symbols| && symbols[i].name == name }

  lemma {:induction false} MetadataDistinct(imageSize: nat)
    ensures DistinctNames(Metadata(imageSize))
  {
    assert Ascii(IMAGE_START)[9] == 'i' as int && Ascii(SOURCE_SIZE)[9] == 's' as int;
  }

  /** std::ostringstream << std::hex. */
  function Hex(n: nat): Name {
    var digit := if n % 16 < 10 then 0x30 + n % 16 else 0x57 + n % 16;
    if n < 16 then [digit] else Hex(n / 16) + [digit]
  }

  function SubName(dll: Name, begin: U32): Name { dll + Ascii("!sub_") + Hex(begin) }

  /** Size recorded for an export: that of the last function starting there, or 0. */
  function SizeAt(functions: seq<RuntimeFunction>, rva: U32): nat
    requires Forwards(functions)
  {
    if functions == [] then 0
    else
      var last := functions[|functions| - 1];
      if last.begin == rva then last.end - last.begin else SizeAt(functions[..|functions| - 1], rva)
  }

  /** used holds exactly the names taken so far, and no two symbols share one. */
  ghost predicate Consistent(symbols: seq<Symbol>, used: set<Name>) {
    DistinctNames(symbols) && forall n :: n in used <==> Named(symbols, n)
  }

  lemma {:induction false} AddSymbol(symbols: seq<Symbol>, used: set<Name>, s: Symbol)
    requires Consistent(symbols, used) && s.name !in used
    ensures Consistent(symbols + [s], used + {s.name})
  {
    forall n ensures Named(symbols + [s], n) <==> Named(symbols, n) || n == s.name {
      if Named(symbols, n) {
        var i :| 0 <= i < |symbols| && symbols[i].name == n;
        assert (symbols + [s])[i].name == n;
      }
      assert (symbols + [s])[|symbols|].name == s.name;
    }
    assert !Named(symbols, s.name);
  }

  /** Every function ends after it begins. */
  predicate Forwards(functions: seq<RuntimeFunction>) {
    forall i :: 0 <= i < |functions| ==> functions[i].begin <= functions[i].end
  }

  /** An export, with the size of the function that starts there. */
  predicate ExportedAs(exports: seq<Export>, functions: seq<RuntimeFunction>, s: Symbol)
    requires Forwards(functions)
  {
    !s.lookup && exists k :: 0 <= k < |exports| && exports[k].name == s.name && exports[k].rva == s.value
                             && s.size == SizeAt(functions, exports[k].rva)
  }

  /** A function under its synthetic name. */
  predicate FunctionAs(dll: Name, functions: seq<RuntimeFunction>, s: Symbol) {
    s.lookup && exists k :: 0 <= k < |functions| && s.name == SubName(dll, functions[k].begin)
                            && s.value == functions[k].begin && s.size == functions[k].end - functions[k].begin
  }

  /** Exports not yet named are added without lookup. */
  method AddExports(symbols0: seq<Symbol>, used0: set<Name>, exports: seq<Export>, functions: seq<RuntimeFunction>)
    returns (symbols: seq<Symbol>, used: set<Name>)
    requires Consistent(symbols0, used0) && Forwards(functions)
    ensures Consistent(symbols, used) && symbols0 <= symbols && used0 <= used
    ensures forall i :: |symbols0| <= i < |symbols| ==> ExportedAs(exports, functions, symbols[i])
    ensures forall e :: e in exports ==> e.name in used
  {
    symbols, used := symbols0, used0;
    var k := 0;
    while k < |exports|
      invariant 0 <= k <= |exports|
      invariant Consistent(symbols, used) && symbols0 <= symbols && used0 <= used
      invariant forall i :: |symbols0| <= i < |symbols| ==> ExportedAs(exports, functions, symbols[i])
      invariant forall i :: 0 <= i < k ==> exports[i].name in used
    {
      var e := exports[k];
      if e.name !in used {
        var s := Symbol(e.name, e.rva, SizeAt(functions, e.rva), false);
        AddSymbol(symbols, used, s);
        assert ExportedAs(exports, functions, s);
        symbols, used := symbols + [s], used + {e.name};
      }
      k := k + 1;
    }
  }

  /** Synthetic names for runtime functions, with lookup. */
  method AddFunctions(symbols0: seq<Symbol>, used0: set<Name>, dll: Name, functions: seq<RuntimeFunction>)
    returns (symbols: seq<Symbol>, used: set<Name>)
    requires Consistent(symbols0, used0) && Forwards(functions)
    ensures Consistent(symbols, used) && symbols0 <= symbols && used0 <= used
    ensures forall i :: |symbols0| <= i < |symbols| ==> FunctionAs(dll, functions, symbols[i])
    ensures forall f :: f in functions ==> SubName(dll, f.begin) in used
  {
    symbols, used := symbols0, used0;
    var k := 0;
    while k < |functions|
      invariant 0 <= k <= |functions|
      invariant Consistent(symbols, used) && symbols0 <= symbols && used0 <= used
      invariant forall i :: |symbols0| <= i < |symbols| ==> FunctionAs(dll, functions, symbols[i])
      invariant forall i :: 0 <= i < k ==> SubName(dll, functions[i].begin) in used
    {
      var f := functions[k];
      var name := SubName(dll, f.begin);
      if name !in used {
        var s := Symbol(name, f.begin, f.end - f.begin, true);
        AddSymbol(symbols, used, s);
        assert FunctionAs(dll, functions, s);
        symbols, used := symbols + [s], used + {name};
      }
      k := k + 1;
    }
  }

  /** The list CollectSymbols makes: metadata, exports up to firstFunction, functions. */
  predicate Collected(symbols: seq<Symbol>, firstFunction: nat, imageSize: nat, exports: seq<Export>, dll: Name,
                      functions: seq<RuntimeFunction>)
    requires Forwards(functions)
  {
    && DistinctNames(symbols) && Metadata(imageSize) <= symbols && 5 <= firstFunction <= |symbols|
    && (forall i :: 5 <= i < firstFunction ==> ExportedAs(exports, functions, symbols[i]))
    && (forall i :: firstFunction <= i < |symbols| ==> FunctionAs(dll, functions, symbols[i]))
  }

  /** The symbol list: five metadata symbols, then exports, then functions, each name once. */
  method CollectSymbols(imageSize: nat, exports: seq<Export>, dll: Name, functions: seq<RuntimeFunction>)
    returns (symbols: seq<Symbol>, ghost firstFunction: nat)
    requires Forwards(functions)
    ensures Collected(symbols, firstFunction, imageSize, exports, dll, functions)
    ensures forall i :: 0 <= i < |symbols| ==> (symbols[i].lookup <==> i < 5 || firstFunction <= i)
    ensures forall e :: e in exports ==> Named(symbols, e.name)
    ensures forall f :: f in functions ==> Named(symbols, SubName(dll, f.begin))
  {
    symbols := Metadata(imageSize);
    MetadataDistinct(imageSize);
    var used := {Ascii(IMAGE_START), Ascii(IMAGE_END), Ascii(SOURCE_SIZE), Ascii(SOURCE_FINGERPRINT),
                 Ascii(SIDECAR_VERSION)};
    MetadataUsed(imageSize, used);
    symbols, used := AddExports(symbols, used, exports, functions);
    firstFunction := |symbols|;
    symbols, used := AddFunctions(symbols, used, dll, functions);
  }

  lemma {:induction false} MetadataUsed(imageSize: nat, used: set<Name>)
    requires used == {Ascii(IMAGE_START), Ascii(IMAGE_END), Ascii(SOURCE_SIZE), Ascii(SOURCE_FINGERPRINT),
                      Ascii(SIDECAR_VERSION)}
    ensures forall n :: n in used <==> Named(Metadata(imageSize), n)
  {
    var m := Metadata(imageSize);
    forall n ensures n in used <==> Named(m, n) {
      assert m[0].name == Ascii(IMAGE_START) && m[1].name == Ascii(IMAGE_END) && m[2].name == Ascii(SOURCE_SIZE)
          && m[3].name == Ascii(SOURCE_FINGERPRINT) && m[4].name == Ascii(SIDECAR_VERSION);
    }
  }

  // ----- the index

  /** Names by dynsym index: entry 0 is the null symbol. */
  function NamesOf(symbols: seq<Symbol>): seq<Name> {
    [[]] + seq(|symbols|, i requires 0 <= i < |symbols| => symbols[i].name)
  }

  function IncludedOf(symbols: seq<Symbol>): seq<bool> {
    [false] + seq(|symbols|, i requires 0 <= i < |symbols| => symbols[i].lookup)
  }

  function BucketCount(symbols: seq<Symbol>): nat {
    var chainCount := |symbols| + 1;
    if chainCount / 4 > 1 then chainCount / 4 else 1
  }

  function BucketsOf(names: seq<Name>, bucketCount: nat): seq<nat>
    requires bucketCount > 0
  {
    seq(|names|, i requires 0 <= i < |names| => ElfHashSpec(names[i]) % bucketCount)
  }

  method BuildIndex(symbols: seq<Symbol>) returns (buckets: seq<nat>, chains: seq<nat>)
    ensures |buckets| == BucketCount(symbols) && |chains| == |symbols| + 1
    ensures Indexed(buckets, chains, BucketsOf(NamesOf(symbols), BucketCount(symbols)), IncludedOf(symbols),
                    |symbols| + 1)
    ensures forall b :: 0 <= b < |buckets| ==> buckets[b] < |chains|
  {
    var b, c := BuildTable(BucketsOf(NamesOf(symbols), BucketCount(symbols)), IncludedOf(symbols),
                           BucketCount(symbols));
    buckets, chains := b[..], c[..];
  }

  /** What dlsym finds for a name: an index into the symbols, or nothing. */
  function Found(symbols: seq<Symbol>, buckets: seq<nat>, chains: seq<nat>, key: Name): nat
    requires |buckets| == BucketCount(symbols) && |chains| == |symbols| + 1
    requires Indexed(buckets, chains, BucketsOf(NamesOf(symbols), BucketCount(symbols)), IncludedOf(symbols),
                     |symbols| + 1)
  {
    var b := ElfHashSpec(key) % BucketCount(symbols);
    IndexExact(buckets, chains, NamesOf(symbols), BucketsOf(NamesOf(symbols), BucketCount(symbols)),
               IncludedOf(symbols), b, key);
    FirstNamed(Walk(chains, buckets[b]), NamesOf(symbols), key)
  }

  /**
   * dlsym finds a name exactly when it names a symbol with lookup, and then that very symbol. So the metadata and
   * function symbols are all reachable, and no name whatever reaches a PE export.
   */
  lemma {:induction false} LookupExact(symbols: seq<Symbol>, buckets: seq<nat>, chains: seq<nat>, key: Name)
    requires DistinctNames(symbols) && |buckets| == BucketCount(symbols) && |chains| == |symbols| + 1
    requires Indexed(buckets, chains, BucketsOf(NamesOf(symbols), BucketCount(symbols)), IncludedOf(symbols),
                     |symbols| + 1)
    ensures var r := Found(symbols, buckets, chains, key);
            && r <= |symbols|
            && forall i :: 0 <= i < |symbols| ==> (r == i + 1 <==> symbols[i].lookup && symbols[i].name == key)
  {
    var names, included := NamesOf(symbols), IncludedOf(symbols);
    var bucketOf := BucketsOf(names, BucketCount(symbols));
    var b := ElfHashSpec(key) % BucketCount(symbols);
    IndexExact(buckets, chains, names, bucketOf, included, b, key);
    var r := Found(symbols, buckets, chains, key);
    forall i | 0 <= i < |symbols| ensures r == i + 1 <==> symbols[i].lookup && symbols[i].name == key {
      assert names[i + 1] == symbols[i].name && included[i + 1] == symbols[i].lookup;
      if symbols[i].lookup && symbols[i].name == key {
        assert bucketOf[i + 1] == b;
        assert names[r] == symbols[r - 1].name;
      }
    }
  }
}
