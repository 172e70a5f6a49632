/**
 * .dynstr, .dynsym and .hash as bytes, and how a dynamic linker looks a name up in them
 * (src/pe_sidecar.cpp:829-847, 950-981). Section bytes only; the entries of .dynamic that lead to them are not
 * modelled.
 */
module DynamicSymbols {
  import opened Bytes
  import opened Wrappers
  import opened Words
  import opened SymbolHash
  import opened SidecarSymbols
  import opened CfiRanges
  import opened ElfFile
  import ElfExports

  function WordAt(s: seq<Byte>, k: nat): nat
    requires k + 4 <= |s|
  {
    Value(s[k..k + 4])
  }

  function QuadAt(s: seq<Byte>, k: nat): nat
    requires k + 8 <= |s|
  {
    Value(s[k..k + 8])
  }

  // ----- names

  /** A null byte, then every name with its terminator. */
  function StringTable(symbols: seq<Symbol>): (s: seq<Byte>)
    ensures s != [] && s[|s| - 1] == 0
  {
    if symbols == [] then [0]
    else StringTable(symbols[..|symbols| - 1]) + (symbols[|symbols| - 1].name + [0])
  }

  function NameOffset(symbols: seq<Symbol>, i: nat): nat
    requires i < |symbols|
  {
    |StringTable(symbols[..i])|
  }

  predicate CStrings(symbols: seq<Symbol>) { forall i :: 0 <= i < |symbols| ==> 0 !in symbols[i].name }

  /** Bytes after its terminator do not change a name. */
  lemma {:induction false} NameInPrefix(s: seq<Byte>, more: seq<Byte>, k: nat)
    requires k < |s| && s[|s| - 1] == 0 && more != [] && more[|more| - 1] == 0
    ensures ElfExports.NameAt(s + more, k) == ElfExports.NameAt(s, k)
  {
    var n := ElfExports.FindZero(s, k);
    ElfExports.FindZeroIs(s + more, k, n);
    assert (s + more)[k..n] == s[k..n];
  }

  lemma {:induction false} NameAtEnd(s: seq<Byte>, name: Name)
    requires 0 !in name
    ensures ElfExports.NameAt(s + (name + [0]), |s|) == name
  {
    var t := s + (name + [0]);
    forall i | |s| <= i < |s| + |name| ensures t[i] != 0 {
      assert t[i] == name[i - |s|];
    }
    ElfExports.FindZeroIs(t, |s|, |s| + |name|);
    assert t[|s|..|s| + |name|] == name;
  }

  lemma {:induction false} NameReads(symbols: seq<Symbol>, i: nat)
    requires CStrings(symbols) && i < |symbols|
    ensures NameOffset(symbols, i) < |StringTable(symbols)|
    ensures ElfExports.NameAt(StringTable(symbols), NameOffset(symbols, i)) == symbols[i].name
    decreases |symbols|
  {
    var n := |symbols| - 1;
    var before, last := StringTable(symbols[..n]), symbols[n].name + [0];
    if i < n {
      NameReads(symbols[..n], i);
      assert symbols[..n][..i] == symbols[..i];
      NameInPrefix(before, last, NameOffset(symbols, i));
    } else {
      NameAtEnd(before, symbols[n].name);
    }
  }

  // ----- records

  /** STB_GLOBAL with STT_OBJECT for the metadata, STT_FUNC for the rest. */
  function InfoOf(i: nat): Byte { if i < 5 then 0x11 else 0x12 }

  /** The three values kept in .rodata are there, everything else is in .text. */
  function SectionOf(i: nat): nat { if 2 <= i < 5 then 7 else 1 }

  function SymbolBytes(nameOffset: nat, i: nat, s: Symbol): (r: seq<Byte>)
    ensures |r| == 24
  {
    Encode(nameOffset, 4) + ([InfoOf(i), 0] + Encode(SectionOf(i), 2)) + Encode(s.value, 8) + Encode(s.size, 8)
  }

  function SymbolRecords(symbols: seq<Symbol>): (r: seq<seq<Byte>>)
    ensures |r| == |symbols| && AllOf(r, 24)
  {
    seq(|symbols|, i requires 0 <= i < |symbols| => SymbolBytes(NameOffset(symbols, i), i, symbols[i]))
  }

  /** The null entry, then one for each symbol. */
  function SymbolTable(symbols: seq<Symbol>): seq<Byte> { Zeros(24) + Concat(SymbolRecords(symbols)) }

  predicate InFields(s: Symbol) { s.value < 0x1_0000_0000_0000_0000 && s.size < 0x1_0000_0000_0000_0000 }

  lemma {:induction false} FourFields(a: seq<Byte>, b: seq<Byte>, c: seq<Byte>, d: seq<Byte>)
    requires |a| == 4 && |b| == 4 && |c| == 8 && |d| == 8
    ensures var r := a + b + c + d; |r| == 24 && r[0..4] == a && r[8..16] == c && r[16..24] == d
  {
  }

  /** Name offset, value and size of a record. */
  predicate RecordSays(r: seq<Byte>, at: nat, nameOffset: nat, s: Symbol)
    requires at + 24 <= |r|
  {
    WordAt(r, at) == nameOffset && QuadAt(r, at + 8) == s.value && QuadAt(r, at + 16) == s.size
  }

  lemma {:induction false} FieldsRead(nameOffset: nat, i: nat, s: Symbol)
    requires nameOffset < 0x1_0000_0000 && InFields(s)
    ensures RecordSays(SymbolBytes(nameOffset, i, s), 0, nameOffset, s)
  {
    FourFields(Encode(nameOffset, 4), [InfoOf(i), 0] + Encode(SectionOf(i), 2), Encode(s.value, 8), Encode(s.size, 8));
    Reduced(nameOffset, 4);
    Reduced(s.value, 8);
    Reduced(s.size, 8);
  }

  lemma {:induction false} Shifted(head: seq<Byte>, s: seq<Byte>, k: nat, n: nat)
    requires k + n <= |s|
    ensures (head + s)[|head| + k..|head| + k + n] == s[k..k + n]
  {
  }

  /** What a symbol can hold in the file. */
  predicate Storable(symbols: seq<Symbol>) {
    && |StringTable(symbols)| <= 0x1_0000_0000
    && forall i :: 0 <= i < |symbols| ==> InFields(symbols[i])
  }

  lemma {:induction false} SaysInside(t: seq<Byte>, at: nat, r: seq<Byte>, nameOffset: nat, s: Symbol)
    requires |r| == 24 && at + 24 <= |t| && t[at..at + 24] == r && RecordSays(r, 0, nameOffset, s)
    ensures RecordSays(t, at, nameOffset, s)
  {
    SubSlice(t, at, r, 0, 4);
    SubSlice(t, at, r, 8, 8);
    SubSlice(t, at, r, 16, 8);
  }

  /** Entry i + 1 holds symbol i: its name, its value and its size read back. */
  predicate EntryHolds(dynsym: seq<Byte>, dynstr: seq<Byte>, i: nat, s: Symbol)
    requires dynstr != [] && dynstr[|dynstr| - 1] == 0 && 24 * (i + 1) + 24 <= |dynsym|
  {
    var offset := WordAt(dynsym, 24 * (i + 1));
    offset < |dynstr| && ElfExports.NameAt(dynstr, offset) == s.name && RecordSays(dynsym, 24 * (i + 1), offset, s)
  }

  lemma {:induction false} EntryFrom(dynsym: seq<Byte>, dynstr: seq<Byte>, i: nat, s: Symbol, offset: nat)
    requires dynstr != [] && dynstr[|dynstr| - 1] == 0 && 24 * (i + 1) + 24 <= |dynsym|
    requires RecordSays(dynsym, 24 * (i + 1), offset, s) && offset < |dynstr|
             && ElfExports.NameAt(dynstr, offset) == s.name
    ensures EntryHolds(dynsym, dynstr, i, s)
  {
  }

  lemma {:induction false} RecordReads(records: seq<seq<Byte>>, i: nat, offset: nat, s: Symbol)
    requires AllOf(records, 24) && i < |records| && |records[i]| == 24 && RecordSays(records[i], 0, offset, s)
    ensures |Zeros(24) + Concat(records)| == 24 * (|records| + 1)
    ensures RecordSays(Zeros(24) + Concat(records), 24 * (i + 1), offset, s)
  {
    ConcatSize(records, 24);
    RecordAt(records, 24, i);
    Shifted(Zeros(24), Concat(records), 24 * i, 24);
    SaysInside(Zeros(24) + Concat(records), 24 * (i + 1), records[i], offset, s);
  }

  lemma {:induction false} RecordIs(symbols: seq<Symbol>, i: nat)
    requires i < |symbols| && InFields(symbols[i]) && NameOffset(symbols, i) < 0x1_0000_0000
    ensures |SymbolRecords(symbols)[i]| == 24
    ensures RecordSays(SymbolRecords(symbols)[i], 0, NameOffset(symbols, i), symbols[i])
  {
    FieldsRead(NameOffset(symbols, i), i, symbols[i]);
  }

  lemma {:induction false} EntryReads(symbols: seq<Symbol>, i: nat)
    requires Storable(symbols) && CStrings(symbols) && i < |symbols|
    ensures |SymbolTable(symbols)| == 24 * (|symbols| + 1)
    ensures EntryHolds(SymbolTable(symbols), StringTable(symbols), i, symbols[i])
  {
    var offset: nat := NameOffset(symbols, i);
    NameReads(symbols, i);
    RecordIs(symbols, i);
    RecordReads(SymbolRecords(symbols), i, offset, symbols[i]);
    EntryFrom(SymbolTable(symbols), StringTable(symbols), i, symbols[i], offset);
  }

  /** Every entry after the first holds its symbol. */
  predicate EntriesHold(dynsym: seq<Byte>, dynstr: seq<Byte>, symbols: seq<Symbol>) {
    && dynstr != [] && dynstr[|dynstr| - 1] == 0 && |dynsym| == 24 * (|symbols| + 1)
    && forall i :: 0 <= i < |symbols| ==> EntryHolds(dynsym, dynstr, i, symbols[i])
  }

  lemma {:induction false} EntriesRead(symbols: seq<Symbol>)
    requires Storable(symbols) && CStrings(symbols)
    ensures EntriesHold(SymbolTable(symbols), StringTable(symbols), symbols)
  {
    ConcatSize(SymbolRecords(symbols), 24);
    forall i | 0 <= i < |symbols| ensures EntryHolds(SymbolTable(symbols), StringTable(symbols), i, symbols[i]) {
      EntryReads(symbols, i);
    }
  }

  // ----- the hash section

  function WordRecords(words: seq<nat>): (r: seq<seq<Byte>>)
    ensures |r| == |words| && AllOf(r, 4)
  {
    seq(|words|, i requires 0 <= i < |words| => Encode(words[i], 4))
  }

  function HashWordsOf(buckets: seq<nat>, chains: seq<nat>): seq<nat> { [|buckets|, |chains|] + buckets + chains }

  function HashTable(buckets: seq<nat>, chains: seq<nat>): seq<Byte> {
    Concat(WordRecords(HashWordsOf(buckets, chains)))
  }

  lemma {:induction false} WordReads(words: seq<nat>, s: seq<Byte>, i: nat, at: nat)
    requires i < |words| && words[i] < 0x1_0000_0000 && s == Concat(WordRecords(words)) && at == 4 * i
    ensures |s| == 4 * |words| && WordAt(s, at) == words[i]
  {
    var records := WordRecords(words);
    ConcatSize(records, 4);
    RecordAt(records, 4, i);
    Reduced(words[i], 4);
  }

  lemma {:induction false} WordOrder(buckets: seq<nat>, chains: seq<nat>, words: seq<nat>)
    requires words == HashWordsOf(buckets, chains)
    ensures |words| == 2 + |buckets| + |chains| && words[0] == |buckets| && words[1] == |chains|
    ensures forall b :: 0 <= b < |buckets| ==> words[2 + b] == buckets[b]
    ensures forall c :: 0 <= c < |chains| ==> words[2 + |buckets| + c] == chains[c]
  {
  }

  /** The words of the section are these tables. */
  predicate HashSays(hash: seq<Byte>, buckets: seq<nat>, chains: seq<nat>) {
    && |hash| == 8 + 4 * |buckets| + 4 * |chains| && WordAt(hash, 0) == |buckets| && WordAt(hash, 4) == |chains|
    && (forall b :: 0 <= b < |buckets| ==> WordAt(hash, 8 + 4 * b) == buckets[b])
    && (forall c :: 0 <= c < |chains| ==> WordAt(hash, 8 + 4 * |buckets| + 4 * c) == chains[c])
  }

  /** Below 2^32 every word reads back. */
  predicate SmallWords(words: seq<nat>) { forall i :: 0 <= i < |words| ==> words[i] < 0x1_0000_0000 }

  predicate WordsIn(hash: seq<Byte>, words: seq<nat>) {
    |hash| == 4 * |words| && forall i, at :: 0 <= i < |words| && at == 4 * i ==> WordIs(hash, at, words[i])
  }

  predicate WordIs(hash: seq<Byte>, at: nat, word: nat) { at + 4 <= |hash| && WordAt(hash, at) == word }

  lemma {:induction false} WordsRead(words: seq<nat>)
    requires SmallWords(words)
    ensures WordsIn(Concat(WordRecords(words)), words)
  {
    ConcatSize(WordRecords(words), 4);
    forall i, at: nat | 0 <= i < |words| && at == 4 * i ensures WordIs(Concat(WordRecords(words)), at, words[i]) {
      WordReads(words, Concat(WordRecords(words)), i, at);
    }
  }

  lemma {:induction false} WordsSay(hash: seq<Byte>, words: seq<nat>, buckets: seq<nat>, chains: seq<nat>)
    requires words == HashWordsOf(buckets, chains) && WordsIn(hash, words)
    ensures HashSays(hash, buckets, chains)
  {
    WordOrder(buckets, chains, words);
    assert WordIs(hash, 0, words[0]) && WordIs(hash, 4, words[1]);
    forall b | 0 <= b < |buckets| ensures WordAt(hash, 8 + 4 * b) == buckets[b] {
      assert WordIs(hash, 8 + 4 * b, words[2 + b]);
    }
    forall c | 0 <= c < |chains| ensures WordAt(hash, 8 + 4 * |buckets| + 4 * c) == chains[c] {
      assert WordIs(hash, 8 + 4 * |buckets| + 4 * c, words[2 + |buckets| + c]);
    }
  }

  lemma {:induction false} HashReads(buckets: seq<nat>, chains: seq<nat>)
    requires |buckets| < 0x1_0000_0000 && |chains| < 0x1_0000_0000 && SmallWords(buckets) && SmallWords(chains)
    ensures HashSays(HashTable(buckets, chains), buckets, chains)
  {
    var words := HashWordsOf(buckets, chains);
    WordOrder(buckets, chains, words);
    WordsRead(words);
    WordsSay(HashTable(buckets, chains), words, buckets, chains);
  }

  // ----- the linker's lookup, on raw bytes

  /** Follows a chain for at most so many entries; None is a malformed or endless one. */
  function FindFrom(hash: seq<Byte>, dynsym: seq<Byte>, dynstr: seq<Byte>, links: nat, count: nat, c: nat, key: Name,
                    steps: nat)
    : Option<nat>
    requires links + 4 * count <= |hash| && 24 * count <= |dynsym| && dynstr != [] && dynstr[|dynstr| - 1] == 0
    decreases steps
  {
    if c == 0 then Some(0)
    else if steps == 0 || c >= count || WordAt(dynsym, 24 * c) >= |dynstr| then None
    else if ElfExports.NameAt(dynstr, WordAt(dynsym, 24 * c)) == key then Some(c)
    else FindFrom(hash, dynsym, dynstr, links, count, WordAt(hash, links + 4 * c), key, steps - 1)
  }

  /** With the two counts at the start of .hash read, and the bucket chosen. */
  function FindInBucket(hash: seq<Byte>, dynsym: seq<Byte>, dynstr: seq<Byte>, bucketCount: nat, count: nat, b: nat,
                        key: Name)
    : Option<nat>
  {
    if b >= bucketCount || |hash| < 8 + 4 * bucketCount + 4 * count || |dynsym| < 24 * count then None
    else if dynstr == [] || dynstr[|dynstr| - 1] != 0 then None
    else FindFrom(hash, dynsym, dynstr, 8 + 4 * bucketCount, count, WordAt(hash, 8 + 4 * b), key, count)
  }

  /** The entry a name leads to, 0 for none. */
  function FindIn(hash: seq<Byte>, dynsym: seq<Byte>, dynstr: seq<Byte>, key: Name): Option<nat> {
    if |hash| < 8 || WordAt(hash, 0) == 0 then None
    else FindInBucket(hash, dynsym, dynstr, WordAt(hash, 0), WordAt(hash, 4), ElfHashSpec(key) % WordAt(hash, 0), key)
  }

  /** The bytes say what these chains and names say. */
  predicate Stored(hash: seq<Byte>, dynsym: seq<Byte>, dynstr: seq<Byte>, links: nat, chains: seq<nat>,
                   names: seq<Name>)
  {
    && links + 4 * |chains| <= |hash| && 24 * |chains| <= |dynsym| && |names| == |chains|
    && dynstr != [] && dynstr[|dynstr| - 1] == 0
    && forall c :: 0 < c < |chains| ==> StoredAt(hash, dynsym, dynstr, links, chains[c], names[c], c)
  }

  predicate StoredAt(hash: seq<Byte>, dynsym: seq<Byte>, dynstr: seq<Byte>, links: nat, next: nat, name: Name, c: nat)
    requires links + 4 * c + 4 <= |hash| && 24 * c + 24 <= |dynsym| && dynstr != [] && dynstr[|dynstr| - 1] == 0
  {
    && WordAt(hash, links + 4 * c) == next && WordAt(dynsym, 24 * c) < |dynstr|
    && ElfExports.NameAt(dynstr, WordAt(dynsym, 24 * c)) == name
  }

  lemma {:induction false} FollowsChain(hash: seq<Byte>, dynsym: seq<Byte>, dynstr: seq<Byte>, links: nat,
                                        chains: seq<nat>, names: seq<Name>, c: nat, key: Name, steps: nat)
    requires Forward(chains) && Stored(hash, dynsym, dynstr, links, chains, names) && c < |chains|
             && |chains| - c <= steps
    ensures InBounds(Walk(chains, c), |names|)
    ensures FindFrom(hash, dynsym, dynstr, links, |chains|, c, key, steps)
            == Some(FirstNamed(Walk(chains, c), names, key))
    decreases steps
  {
    WalkInside(chains, c);
    if c != 0 {
      assert StoredAt(hash, dynsym, dynstr, links, chains[c], names[c], c);
      assert Walk(chains, c)[1..] == Walk(chains, chains[c]);
      if chains[c] == 0 {
        assert Walk(chains, chains[c]) == [];
      } else {
        FollowsChain(hash, dynsym, dynstr, links, chains, names, chains[c], key, steps - 1);
      }
    }
  }

  lemma {:induction false} FindInIs(hash: seq<Byte>, dynsym: seq<Byte>, dynstr: seq<Byte>, bucketCount: nat,
                                    chains: seq<nat>, names: seq<Name>, b: nat, first: nat, key: Name)
    requires Forward(chains) && Stored(hash, dynsym, dynstr, 8 + 4 * bucketCount, chains, names) && first < |chains|
    requires b < bucketCount && |hash| == 8 + 4 * bucketCount + 4 * |chains| && WordAt(hash, 8 + 4 * b) == first
    ensures InBounds(Walk(chains, first), |names|)
    ensures FindInBucket(hash, dynsym, dynstr, bucketCount, |chains|, b, key)
            == Some(FirstNamed(Walk(chains, first), names, key))
  {
    FollowsChain(hash, dynsym, dynstr, 8 + 4 * bucketCount, chains, names, first, key, |chains|);
  }

  lemma {:induction false} TablesStored(hash: seq<Byte>, dynsym: seq<Byte>, dynstr: seq<Byte>, symbols: seq<Symbol>,
                                        buckets: seq<nat>, chains: seq<nat>)
    requires EntriesHold(dynsym, dynstr, symbols) && HashSays(hash, buckets, chains) && |chains| == |symbols| + 1
    ensures Stored(hash, dynsym, dynstr, 8 + 4 * |buckets|, chains, NamesOf(symbols))
  {
    forall c | 0 < c < |chains|
      ensures StoredAt(hash, dynsym, dynstr, 8 + 4 * |buckets|, chains[c], NamesOf(symbols)[c], c)
    {
      assert EntryHolds(dynsym, dynstr, c - 1, symbols[c - 1]);
    }
  }

  /** The index that BuildIndex leaves. */
  predicate IndexFor(symbols: seq<Symbol>, buckets: seq<nat>, chains: seq<nat>) {
    && |buckets| == BucketCount(symbols) && |chains| == |symbols| + 1
    && Indexed(buckets, chains, BucketsOf(NamesOf(symbols), BucketCount(symbols)), IncludedOf(symbols), |symbols| + 1)
    && forall b :: 0 <= b < |buckets| ==> buckets[b] < |chains|
  }

  lemma {:induction false} FoundIs(symbols: seq<Symbol>, buckets: seq<nat>, chains: seq<nat>, b: nat, key: Name)
    requires IndexFor(symbols, buckets, chains) && b == ElfHashSpec(key) % BucketCount(symbols)
    ensures b < |buckets| && InBounds(Walk(chains, buckets[b]), |NamesOf(symbols)|)
    ensures Found(symbols, buckets, chains, key) == FirstNamed(Walk(chains, buckets[b]), NamesOf(symbols), key)
  {
    WalkInside(chains, buckets[b]);
  }

  lemma {:induction false} FindInOpens(hash: seq<Byte>, dynsym: seq<Byte>, dynstr: seq<Byte>, bucketCount: nat,
                                       count: nat, b: nat, key: Name)
    requires |hash| >= 8 && WordAt(hash, 0) == bucketCount > 0 && WordAt(hash, 4) == count
             && b == ElfHashSpec(key) % bucketCount
    ensures FindIn(hash, dynsym, dynstr, key) == FindInBucket(hash, dynsym, dynstr, bucketCount, count, b, key)
  {
  }

  lemma {:induction false} BytesFollow(hash: seq<Byte>, dynsym: seq<Byte>, dynstr: seq<Byte>, names: seq<Name>,
                                       buckets: seq<nat>, chains: seq<nat>, b: nat, key: Name)
    requires Stored(hash, dynsym, dynstr, 8 + 4 * |buckets|, chains, names) && HashSays(hash, buckets, chains)
             && Forward(chains)
    requires b < |buckets| && buckets[b] < |chains| && InBounds(Walk(chains, buckets[b]), |names|)
    ensures FindInBucket(hash, dynsym, dynstr, |buckets|, |chains|, b, key)
            == Some(FirstNamed(Walk(chains, buckets[b]), names, key))
  {
    FindInIs(hash, dynsym, dynstr, |buckets|, chains, names, b, buckets[b], key);
  }

  /** Bytes that say what the tables and symbols say lead where the tables lead. */
  lemma {:induction false} BytesFind(hash: seq<Byte>, dynsym: seq<Byte>, dynstr: seq<Byte>, symbols: seq<Symbol>,
                                     buckets: seq<nat>, chains: seq<nat>, b: nat, key: Name)
    requires EntriesHold(dynsym, dynstr, symbols) && HashSays(hash, buckets, chains)
             && IndexFor(symbols, buckets, chains)
    requires b == ElfHashSpec(key) % BucketCount(symbols)
    ensures FindIn(hash, dynsym, dynstr, key) == Some(Found(symbols, buckets, chains, key))
  {
    FoundIs(symbols, buckets, chains, b, key);
    FindInOpens(hash, dynsym, dynstr, |buckets|, |chains|, b, key);
    TablesStored(hash, dynsym, dynstr, symbols, buckets, chains);
    BytesFollow(hash, dynsym, dynstr, NamesOf(symbols), buckets, chains, b, key);
  }

  /**
   * Looking a name up in the bytes of the three sections ends, and finds a symbol exactly when it is one of those with
   * lookup and the name is its own; the entry found holds its value and its size.
   */
  predicate LooksUp(hash: seq<Byte>, dynsym: seq<Byte>, dynstr: seq<Byte>, symbols: seq<Symbol>, key: Name) {
    var r := FindIn(hash, dynsym, dynstr, key);
    && r.Some? && r.value <= |symbols| && EntriesHold(dynsym, dynstr, symbols)
    && (forall i :: 0 <= i < |symbols| ==> (r.value == i + 1 <==> symbols[i].lookup && symbols[i].name == key))
  }

  lemma {:induction false} BytesLookupExact(symbols: seq<Symbol>, buckets: seq<nat>, chains: seq<nat>, key: Name)
    requires Storable(symbols) && CStrings(symbols) && DistinctNames(symbols) && IndexFor(symbols, buckets, chains)
    requires |symbols| < 0xFFFF_FFFF
    ensures LooksUp(HashTable(buckets, chains), SymbolTable(symbols), StringTable(symbols), symbols, key)
  {
    EntriesRead(symbols);
    IndexSmall(symbols, buckets, chains);
    HashReads(buckets, chains);
    BytesFind(HashTable(buckets, chains), SymbolTable(symbols), StringTable(symbols), symbols, buckets, chains,
              ElfHashSpec(key) % BucketCount(symbols), key);
    LookupExact(symbols, buckets, chains, key);
  }

  lemma {:induction false} IndexSmall(symbols: seq<Symbol>, buckets: seq<nat>, chains: seq<nat>)
    requires IndexFor(symbols, buckets, chains) && |symbols| < 0xFFFF_FFFF
    ensures |buckets| < 0x1_0000_0000 && SmallWords(buckets) && SmallWords(chains)
  {
    assert Forward(chains);
  }

  // ----- the addresses of the three values, known only after the layout

  function Placed(symbols: seq<Symbol>, rodata: nat): (r: seq<Symbol>)
    requires |symbols| >= 5
    ensures |r| == |symbols|
  {
    symbols[2 := symbols[2].(value := rodata)][3 := symbols[3].(value := rodata + 8)][4 :=
      symbols[4].(value := rodata + 16)]
  }

  /** The same names and the same lookup flags. */
  predicate SameNames(a: seq<Symbol>, b: seq<Symbol>) {
    |a| == |b| && forall i :: 0 <= i < |a| ==> a[i].name == b[i].name && a[i].lookup == b[i].lookup
  }

  lemma {:induction false} SameStrings(a: seq<Symbol>, b: seq<Symbol>)
    requires SameNames(a, b)
    ensures StringTable(a) == StringTable(b)
    decreases |a|
  {
    if a != [] {
      SameStrings(a[..|a| - 1], b[..|b| - 1]);
    }
  }

  lemma {:induction false} SameIndex(a: seq<Symbol>, b: seq<Symbol>, buckets: seq<nat>, chains: seq<nat>)
    requires SameNames(a, b) && IndexFor(a, buckets, chains)
    ensures IndexFor(b, buckets, chains)
  {
    assert NamesOf(a) == NamesOf(b) && IncludedOf(a) == IncludedOf(b);
  }

  // ----- names without null bytes

  lemma {:induction false} HexIsText(n: nat)
    ensures 0 !in Hex(n)
  {
    if n >= 16 {
      HexIsText(n / 16);
    }
  }

  lemma {:induction false} SubIsText(dll: Name, begin: U32)
    requires 0 !in dll
    ensures 0 !in SubName(dll, begin)
  {
    HexIsText(begin);
  }

  predicate IsText(s: string) { forall i :: 0 <= i < |s| ==> 0 < s[i] as int < 0x100 }

  lemma {:induction false} AsciiIsText(s: string)
    requires IsText(s)
    ensures 0 !in Ascii(s)
  {
    forall i | 0 <= i < |s| ensures Ascii(s)[i] != 0 {
      assert 0 < s[i] as int < 0x100;
    }
  }

  lemma {:induction false} MetadataIsText(imageSize: nat)
    ensures CStrings(Metadata(imageSize))
  {
    AsciiIsText(IMAGE_START);
    AsciiIsText(IMAGE_END);
    AsciiIsText(SOURCE_SIZE);
    AsciiIsText(SOURCE_FINGERPRINT);
    AsciiIsText(SIDECAR_VERSION);
  }

  /** Names of C strings are C strings, and every field fits. */
  lemma {:induction false} CollectedIsText(symbols: seq<Symbol>, firstFunction: nat, imageSize: nat,
                                           exports: seq<Export>, dll: Name, functions: seq<RuntimeFunction>)
    requires Forwards(functions) && Collected(symbols, firstFunction, imageSize, exports, dll, functions)
    requires 0 !in dll && forall e :: e in exports ==> 0 !in e.name
    ensures CStrings(symbols)
  {
    MetadataIsText(imageSize);
    forall i | 0 <= i < |symbols| ensures 0 !in symbols[i].name {
      if i < 5 {
        assert symbols[i] == Metadata(imageSize)[i];
      } else if i < firstFunction {
        assert ExportedAs(exports, functions, symbols[i]);
      } else {
        assert FunctionAs(dll, functions, symbols[i]);
        var k :| 0 <= k < |functions| && symbols[i].name == SubName(dll, functions[k].begin);
        SubIsText(dll, functions[k].begin);
      }
    }
  }

  lemma {:induction false} SizeInField(functions: seq<RuntimeFunction>, rva: U32)
    requires Forwards(functions)
    ensures SizeAt(functions, rva) < 0x1_0000_0000
  {
    if functions != [] {
      SizeInField(functions[..|functions| - 1], rva);
    }
  }

  lemma {:induction false} PlacedInFields(symbols: seq<Symbol>, firstFunction: nat, imageSize: nat,
                                          exports: seq<Export>, dll: Name, functions: seq<RuntimeFunction>, rodata: nat)
    requires Forwards(functions) && Collected(symbols, firstFunction, imageSize, exports, dll, functions)
    requires imageSize < 0x1_0000_0000 && rodata < 0x8000_0000_0000_0000
    ensures forall i :: 0 <= i < |symbols| ==> InFields(Placed(symbols, rodata)[i])
  {
    forall i | 0 <= i < |symbols| ensures InFields(Placed(symbols, rodata)[i]) {
      if i < 5 {
        assert symbols[i] == Metadata(imageSize)[i];
      } else if i < firstFunction {
        assert ExportedAs(exports, functions, symbols[i]);
        var k :| 0 <= k < |exports| && symbols[i].value == exports[k].rva
          && symbols[i].size == SizeAt(functions, exports[k].rva);
        SizeInField(functions, exports[k].rva);
      } else {
        assert FunctionAs(dll, functions, symbols[i]);
      }
    }
  }
}
