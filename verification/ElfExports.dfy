/** The rename-and-rebuild of tools/elf_exports.py, on the string table and the hash table of an ELF file. */
module ElfExports {
  import opened Bytes
  import opened Wrappers
  import opened SymbolHash
  import opened Words

  // ----- the Python hash, on unbounded integers

  function PyStep(value: nat, byte: Byte): nat {
    var x := 16 * value + byte;
    x / 0x1_0000_0000 * 0x1_0000_0000 + Mix(x % 0x1000_0000, x / 0x1000_0000 % 16)
  }

  function PyFrom(value: nat, name: Name): nat
    decreases |name|
  {
    if name == [] then value else PyFrom(PyStep(value, name[0]), name[1..])
  }

  function PyHash(name: Name): nat { PyFrom(0, name) }

  /** At no byte does the running value times sixteen plus the byte reach 2^32. */
  predicate NeverOverflows(hash: U32, name: Name)
    decreases |name|
  {
    name != [] ==> 16 * hash + name[0] < 0x1_0000_0000 && NeverOverflows(HashStep(hash, name[0]), name[1..])
  }

  /** PyStep from the pieces of the shifted sum. */
  lemma {:induction false} PyStepIs(value: nat, byte: Byte, low: int, high: Nibble)
    requires 16 * value + byte < 0x1_0000_0000
    requires low == (16 * value + byte) % 0x1000_0000 && high == (16 * value + byte) / 0x1000_0000
    ensures PyStep(value, byte) == Mix(low, high)
  {
    Quotients(16 * value + byte);
  }

  lemma {:induction false} Quotients(x: nat)
    requires x < 0x1_0000_0000
    ensures x / 0x1_0000_0000 == 0 && x / 0x1000_0000 < 16 && x / 0x1000_0000 % 16 == x / 0x1000_0000
  {
  }

  lemma {:induction false} StepsAgree(hash: U32, byte: Byte)
    requires 16 * hash + byte < 0x1_0000_0000
    ensures PyStep(hash, byte) == HashStep(hash, byte)
  {
    Quotients(16 * hash + byte);
    PyStepIs(hash, byte, (16 * hash + byte) % 0x1000_0000, (16 * hash + byte) / 0x1000_0000);
  }

  lemma {:induction false} LargeStaysLarge(value: nat, byte: Byte)
    requires 16 * value + byte >= 0x1_0000_0000
    ensures PyStep(value, byte) >= 0x1_0000_0000
  {
    assert (16 * value + byte) / 0x1_0000_0000 >= 1;
  }

  lemma {:induction false} LargeForGood(value: nat, name: Name)
    requires value >= 0x1_0000_0000
    ensures PyFrom(value, name) >= 0x1_0000_0000
    decreases |name|
  {
    if name != [] {
      LargeStaysLarge(value, name[0]);
      LargeForGood(PyStep(value, name[0]), name[1..]);
    }
  }

  lemma {:induction false} HashesFrom(hash: U32, name: Name)
    requires hash < 0x1000_0000
    ensures PyFrom(hash, name) == HashFrom(hash, name) <==> NeverOverflows(hash, name)
    decreases |name|
  {
    if name != [] {
      if 16 * hash + name[0] < 0x1_0000_0000 {
        StepsAgree(hash, name[0]);
        HashesFrom(HashStep(hash, name[0]), name[1..]);
      } else {
        LargeStaysLarge(hash, name[0]);
        LargeForGood(PyStep(hash, name[0]), name[1..]);
      }
    }
  }

  /** The two hash functions agree on a name exactly when the 32-bit one never wraps on it. */
  lemma {:induction false} HashesAgreeIff(name: Name)
    ensures PyHash(name) == ElfHashSpec(name) <==> NeverOverflows(0, name)
  {
    HashesFrom(0, name);
  }

  /** From this value on, the bytes make the 32-bit sum wrap, once. */
  predicate Wraps(value: U32, name: Name) {
    PyFrom(value, name) == 0x1_0000_0002 && HashFrom(value, name) == 2 && !NeverOverflows(value, name)
  }

  lemma {:induction false} SmallStep(value: U32, byte: Byte, rest: Name)
    requires 16 * value + byte < 0x1000_0000 && Wraps(16 * value + byte, rest)
    ensures Wraps(value, [byte] + rest)
  {
    StepsAgree(value, byte);
    assert ([byte] + rest)[1..] == rest;
  }

  lemma {:induction false} WrappingSum(x: nat)
    requires x == 0x1_0000_0002
    ensures x / 0x1_0000_0000 == 1 && x % 0x1000_0000 == 2 && x / 0x1000_0000 == 16 && Wrap32(x) == 2
  {
  }

  lemma {:induction false} PyWraps(value: nat, byte: Byte)
    requires 16 * value + byte == 0x1_0000_0002
    ensures PyStep(value, byte) == 0x1_0000_0002
  {
    WrappingSum(16 * value + byte);
  }

  lemma {:induction false} HashWraps(hash: U32, byte: Byte)
    requires 16 * hash + byte == 0x1_0000_0002
    ensures HashStep(hash, byte) == 2
  {
    WrappingSum(16 * hash + byte);
  }

  lemma {:induction false} WrappingEnd(value: nat, byte: Byte)
    requires value == 0x0fff_ffff && byte == 0x12
    ensures Wraps(value, [byte])
  {
    assert 16 * value + byte == 0x1_0000_0002;
    PyWraps(value, byte);
    HashWraps(value, byte);
    assert [byte][1..] == [];
  }

  type Property = (U32, Name) -> bool

  /** Back from the last byte to the first. */
  lemma {:induction false} BackToFirst(wraps: Property, a: Byte, f: Byte, z: Byte)
    requires a == 0xff && f == 0x0f && z == 0x12 && wraps(0xfff_ffff, [z])
    requires forall value: U32, byte: Byte, rest: Name {:trigger wraps(value, [byte] + rest)} ::
               16 * value + byte < 0x1000_0000 && wraps(16 * value + byte, rest) ==> wraps(value, [byte] + rest)
    ensures wraps(0, [a, f, f, f, f, f, z])
  {
    assert wraps(0xff_ffff, [f] + [z]) && [f, z] == [f] + [z];
    assert wraps(0xf_ffff, [f] + [f, z]) && [f, f, z] == [f] + [f, z];
    assert wraps(0xffff, [f] + [f, f, z]) && [f, f, f, z] == [f] + [f, f, z];
    assert wraps(0xfff, [f] + [f, f, f, z]) && [f, f, f, f, z] == [f] + [f, f, f, z];
    assert wraps(0xff, [f] + [f, f, f, f, z]) && [f, f, f, f, f, z] == [f] + [f, f, f, f, z];
    assert wraps(0, [a] + [f, f, f, f, f, z]) && [a, f, f, f, f, f, z] == [a] + [f, f, f, f, f, z];
  }

  lemma {:induction false} SmallSteps()
    ensures forall value: U32, byte: Byte, rest: Name {:trigger Wraps(value, [byte] + rest)} ::
              16 * value + byte < 0x1000_0000 && Wraps(16 * value + byte, rest) ==> Wraps(value, [byte] + rest)
  {
    forall value: U32, byte: Byte, rest: Name | 16 * value + byte < 0x1000_0000 && Wraps(16 * value + byte, rest)
      ensures Wraps(value, [byte] + rest)
    {
      SmallStep(value, byte, rest);
    }
  }

  /**
   * Seven bytes, 255, 15 five times and 18, on which the 32-bit sum wraps: the linker's hash differs from the tool's.
   */
  lemma {:induction false} HashesDiffer(a: Byte, f: Byte, z: Byte, name: Name)
    requires a == 0xff && f == 0x0f && z == 0x12 && name == [a, f, f, f, f, f, z]
    ensures PyHash(name) == 0x1_0000_0002 && ElfHashSpec(name) == 2 && !NeverOverflows(0, name)
  {
    SmallSteps();
    WrappingEnd(0xfff_ffff, z);
    BackToFirst(Wraps, a, f, z);
    assert Wraps(0, name);
  }

  // ----- names in a string table

  /** The offset of the first zero at or after k. */
  function FindZero(s: seq<Byte>, k: nat): (n: nat)
    requires k < |s| && s[|s| - 1] == 0
    ensures k <= n < |s| && s[n] == 0 && forall i :: k <= i < n ==> s[i] != 0
    decreases |s| - k
  {
    if s[k] == 0 then k else FindZero(s, k + 1)
  }

  function NameAt(s: seq<Byte>, k: nat): Name
    requires k < |s| && s[|s| - 1] == 0
  {
    s[k..FindZero(s, k)]
  }

  /** A well-formed string table with in-range name offsets; entry 0 is the null symbol. */
  predicate ValidTable(strtab: seq<Byte>, offsets: seq<nat>) {
    && strtab != [] && strtab[|strtab| - 1] == 0
    && forall i :: 0 <= i < |offsets| ==> offsets[i] < |strtab|
  }

  type Renamer = Name -> Option<Name>

  /** One symbol's rename: same length or the run is abandoned. */
  function Renamed(s: seq<Byte>, k: nat, rename: Renamer): Option<seq<Byte>>
    requires k < |s| && s[|s| - 1] == 0
  {
    match rename(NameAt(s, k))
    case None => Some(s)
    case Some(replacement) => if |replacement| != |NameAt(s, k)| then None
      else Some(s[..k] + replacement + s[FindZero(s, k)..])
  }

  lemma {:induction false} FindZeroIs(s: seq<Byte>, k: nat, n: nat)
    requires k <= n < |s| && s[|s| - 1] == 0 && s[n] == 0 && forall i :: k <= i < n ==> s[i] != 0
    ensures FindZero(s, k) == n
    decreases n - k
  {
    if k < n {
      FindZeroIs(s, k + 1, n);
    }
  }

  /** Where the bytes of a name were overwritten. */
  predicate Overwritten(s: seq<Byte>, k: nat, replacement: Name, t: seq<Byte>) {
    && k + |replacement| < |s| && t == s[..k] + replacement + s[k + |replacement|..]
  }

  lemma {:induction false} OverwrittenAt(s: seq<Byte>, k: nat, replacement: Name, t: seq<Byte>, i: nat)
    requires Overwritten(s, k, replacement, t) && i < |s|
    ensures |t| == |s| && t[i] == if k <= i < k + |replacement| then replacement[i - k] else s[i]
  {
  }

  /**
   * What one rename does to every name of the table, wherever it starts: names ending elsewhere stay, and names that
   * share the renamed one's terminator see the replacement in the part they share.
   */
  lemma {:induction false} RenameReaches(s: seq<Byte>, k: nat, replacement: Name, t: seq<Byte>, j: nat)
    requires k < |s| && j < |s| && s[|s| - 1] == 0 && |replacement| == |NameAt(s, k)|
             && Overwritten(s, k, replacement, t)
    requires forall b :: b in replacement ==> b != 0
    ensures |t| == |s| && t[|t| - 1] == 0 && FindZero(t, j) == FindZero(s, j)
    ensures FindZero(s, j) != FindZero(s, k) ==> NameAt(t, j) == NameAt(s, j)
    ensures FindZero(s, j) == FindZero(s, k) && j <= k ==> NameAt(t, j) == s[j..k] + replacement
    ensures FindZero(s, j) == FindZero(s, k) && k <= j ==> NameAt(t, j) == replacement[j - k..]
  {
    var z, n := FindZero(s, k), FindZero(s, j);
    OverwrittenAt(s, k, replacement, t, n);
    OverwrittenAt(s, k, replacement, t, |s| - 1);
    forall i | j <= i < n ensures t[i] != 0 {
      OverwrittenAt(s, k, replacement, t, i);
      assert k <= i < z ==> replacement[i - k] in replacement;
    }
    FindZeroIs(t, j, n);
    SharedTerminator(s, k, j);
    OverwrittenSlices(s, k, replacement, t, j, n);
  }

  lemma {:induction false} OverwrittenSlices(s: seq<Byte>, k: nat, replacement: Name, t: seq<Byte>, j: nat, n: nat)
    requires Overwritten(s, k, replacement, t) && j <= n <= |s| == |t|
    ensures n < k || k + |replacement| < j ==> t[j..n] == s[j..n]
    ensures j <= k && n == k + |replacement| ==> t[j..n] == s[j..k] + replacement
    ensures k <= j && n == k + |replacement| ==> t[j..n] == replacement[j - k..]
  {
  }

  /** Two names end at one terminator, or the second lies apart from the first. */
  lemma {:induction false} SharedTerminator(s: seq<Byte>, k: nat, j: nat)
    requires k < |s| && j < |s| && s[|s| - 1] == 0
    ensures FindZero(s, j) == FindZero(s, k) || FindZero(s, j) < k || FindZero(s, k) < j
  {
    var z, n := FindZero(s, k), FindZero(s, j);
    if j <= k <= n {
      FindZeroIs(s, k, n);
    } else if k <= j <= z {
      FindZeroIs(s, j, z);
    }
  }

  /** A step on the table at a name offset. */
  type NameStep = (seq<Byte>, nat) -> Option<seq<Byte>>

  function StepOf(rename: Renamer): NameStep {
    (s: seq<Byte>, k: nat) => if k < |s| && s[|s| - 1] == 0 then Renamed(s, k, rename) else None
  }

  /** The string table after renaming the first n symbols in order, each seeing what the earlier ones wrote. */
  function RenamedAll(s: seq<Byte>, offsets: seq<nat>, step: NameStep, n: nat): Option<seq<Byte>>
    requires n <= |offsets|
  {
    if n <= 1 then Some(s)
    else
      var before :- RenamedAll(s, offsets, step, n - 1);
      step(before, offsets[n - 1])
  }

  /** Whether the tool counts the symbol as renamed. */
  type NameTest = (seq<Byte>, nat) -> bool

  function CountedBy(rename: Renamer): NameTest {
    (s: seq<Byte>, k: nat) => k < |s| && s[|s| - 1] == 0 && rename(NameAt(s, k)).Some?
  }

  /** How many of the first n symbols are renamed, in a run that does not fail. */
  function RenamedCount(s: seq<Byte>, offsets: seq<nat>, step: NameStep, counted: NameTest, n: nat): nat
    requires n <= |offsets|
  {
    if n <= 1 then 0
    else
      var before := RenamedAll(s, offsets, step, n - 1);
      RenamedCount(s, offsets, step, counted, n - 1)
      + (if before.Some? && counted(before.value, offsets[n - 1]) then 1 else 0)
  }

  ghost predicate Follows(step: NameStep, rename: Renamer) {
    forall s: seq<Byte>, k: nat {:trigger Renamed(s, k, rename)} :: k < |s| && s[|s| - 1] == 0 ==>
           step(s, k) == Renamed(s, k, rename)
  }

  /** A step that leaves tables well-formed. */
  ghost predicate Keeps(step: NameStep) {
    forall s: seq<Byte>, k: nat {:trigger step(s, k)} :: s != [] && s[|s| - 1] == 0 && step(s, k).Some? ==>
      |step(s, k).value| == |s| && step(s, k).value[|s| - 1] == 0
  }

  lemma {:induction false} RenameKeeps(rename: Renamer)
    ensures Keeps(StepOf(rename)) && Follows(StepOf(rename), rename)
  {
  }

  /** rename_symbol's in-place step on one name. */
  method RenameOne(data: array<Byte>, k: nat, rename: Renamer, ghost step: NameStep, ghost counted: NameTest)
    returns (ok: bool, changed: bool)
    requires k < data.Length && data[data.Length - 1] == 0 && Follows(step, rename) && counted == CountedBy(rename)
    modifies data
    ensures ok <==> step(old(data[..]), k).Some?
    ensures ok ==> step(old(data[..]), k) == Some(data[..]) && (changed <==> counted(old(data[..]), k))
  {
    assert step(data[..], k) == Renamed(data[..], k, rename);
    var name := NameAt(data[..], k);
    var replacement := rename(name);
    changed := replacement.Some?;
    if changed {
      if |replacement.value| != |name| {
        return false, false;
      }
      Store(data, k, replacement.value);
    }
    ok := true;
  }

  method RenameSymbols(data: array<Byte>, offsets: seq<nat>, rename: Renamer, ghost step: NameStep,
                       ghost counted: NameTest)
    returns (ok: bool, renamed: nat)
    requires ValidTable(data[..], offsets) && Follows(step, rename) && Keeps(step) && counted == CountedBy(rename)
    modifies data
    ensures ok <==> RenamedAll(old(data[..]), offsets, step, |offsets|).Some?
    ensures ok ==> RenamedAll(old(data[..]), offsets, step, |offsets|) == Some(data[..])
    ensures ok ==> ValidTable(data[..], offsets)
    ensures ok ==> renamed == RenamedCount(old(data[..]), offsets, step, counted, |offsets|)
  {
    renamed := 0;
    ghost var s := data[..];
    if |offsets| <= 1 {
      return true, 0;
    }
    var index := 1;
    while index < |offsets|
      invariant 1 <= index <= |offsets| && data[data.Length - 1] == 0
      invariant RenamedAll(s, offsets, step, index) == Some(data[..])
      invariant renamed == RenamedCount(s, offsets, step, counted, index)
    {
      var changed;
      ok, changed := RenameOne(data, offsets[index], rename, step, counted);
      if !ok {
        RenamedFails(s, offsets, step, index, |offsets|);
        return;
      }
      renamed := renamed + (if changed then 1 else 0);
      index := index + 1;
    }
    ok := true;
  }

  lemma {:induction false} RenamedFails(s: seq<Byte>, offsets: seq<nat>, step: NameStep, k: nat, n: nat)
    requires 1 <= k < n <= |offsets|
    ensures RenamedAll(s, offsets, step, k + 1).None? ==> RenamedAll(s, offsets, step, n).None?
    decreases n
  {
    if k + 1 < n {
      RenamedFails(s, offsets, step, k, n - 1);
    }
  }

  // ----- the rebuild

  function FinalNames(strtab: seq<Byte>, offsets: seq<nat>): seq<Name>
    requires ValidTable(strtab, offsets)
  {
    seq(|offsets|, i requires 0 <= i < |offsets| => NameAt(strtab, offsets[i]))
  }

  function PyBuckets(names: seq<Name>, bucketCount: nat): seq<nat>
    requires bucketCount > 0
  {
    seq(|names|, i requires 0 <= i < |names| => PyHash(names[i]) % bucketCount)
  }

  function AllIncluded(n: nat): seq<bool> { seq(n, _ => true) }

  /** rewrite_exports for a file whose chain count equals its dynsym entry count. */
  method RewriteExports(data: array<Byte>, offsets: seq<nat>, rename: Renamer, bucketCount: nat)
    returns (ok: bool, renamed: nat, buckets: seq<nat>, chains: seq<nat>)
    requires ValidTable(data[..], offsets) && |offsets| >= 1 && bucketCount > 0
    modifies data
    ensures ok <==> RenamedAll(old(data[..]), offsets, StepOf(rename), |offsets|).Some?
    ensures ok ==> RenamedAll(old(data[..]), offsets, StepOf(rename), |offsets|) == Some(data[..])
    ensures ok ==> ValidTable(data[..], offsets)
    ensures ok ==> renamed == RenamedCount(old(data[..]), offsets, StepOf(rename), CountedBy(rename), |offsets|)
    ensures ok ==> |buckets| == bucketCount && |chains| == |offsets| && forall b :: 0 <= b < bucketCount ==>
            buckets[b] < |chains|
    ensures ok ==> Indexed(buckets, chains, PyBuckets(FinalNames(data[..], offsets), bucketCount),
                           AllIncluded(|offsets|), |offsets|)
  {
    buckets, chains := [], [];
    RenameKeeps(rename);
    ok, renamed := RenameSymbols(data, offsets, rename, StepOf(rename), CountedBy(rename));
    if ok {
      var names := FinalNames(data[..], offsets);
      var b, c := BuildTable(PyBuckets(names, bucketCount), AllIncluded(|offsets|), bucketCount);
      buckets, chains := b[..], c[..];
    }
  }

  /** Index 0 if the consumer finds nothing, else the symbol it finds; the consumer hashes with the C function. */
  function FoundAfter(names: seq<Name>, buckets: seq<nat>, chains: seq<nat>, key: Name): nat
    requires |buckets| > 0 && |chains| == |names|
    requires Indexed(buckets, chains, PyBuckets(names, |buckets|), AllIncluded(|names|), |names|)
  {
    var b := ElfHashSpec(key) % |buckets|;
    IndexExact(buckets, chains, names, PyBuckets(names, |buckets|), AllIncluded(|names|), b, key);
    FirstNamed(Walk(chains, buckets[b]), names, key)
  }

  /** i is the lowest index, from 1, that carries the name. */
  predicate LowestIndex(names: seq<Name>, key: Name, i: nat) {
    1 <= i < |names| && names[i] == key && forall k :: 1 <= k < i ==> names[k] != key
  }

  /**
   * After the rebuild, a consumer looking up the final name of an entry reaches the lowest index carrying it exactly
   * when the two hashes of that name fall into one bucket, and otherwise finds nothing.
   */
  lemma {:induction false} RebuiltLookupExact(names: seq<Name>, buckets: seq<nat>, chains: seq<nat>, i: nat)
    requires |buckets| > 0 && |chains| == |names| && i < |names| && LowestIndex(names, names[i], i)
    requires Indexed(buckets, chains, PyBuckets(names, |buckets|), AllIncluded(|names|), |names|)
    ensures FoundAfter(names, buckets, chains, names[i])
            == if PyHash(names[i]) % |buckets| == ElfHashSpec(names[i]) % |buckets| then i else 0
  {
    var b := ElfHashSpec(names[i]) % |buckets|;
    var bucketOf := PyBuckets(names, |buckets|);
    IndexExact(buckets, chains, names, bucketOf, AllIncluded(|names|), b, names[i]);
    var r := FoundAfter(names, buckets, chains, names[i]);
    assert bucketOf[i] == PyHash(names[i]) % |buckets|;
    if r != 0 {
      assert bucketOf[r] == PyHash(names[r]) % |buckets|;
    }
  }

  /** In particular whenever the name does not overflow the 32-bit hash. */
  lemma {:induction false} RebuiltLookupFinds(names: seq<Name>, buckets: seq<nat>, chains: seq<nat>, i: nat)
    requires |buckets| > 0 && |chains| == |names| && i < |names| && LowestIndex(names, names[i], i)
    requires Indexed(buckets, chains, PyBuckets(names, |buckets|), AllIncluded(|names|), |names|)
    requires NeverOverflows(0, names[i])
    ensures FoundAfter(names, buckets, chains, names[i]) == i
  {
    HashesAgreeIff(names[i]);
    RebuiltLookupExact(names, buckets, chains, i);
  }

  lemma {:induction false} ApartBuckets(names: seq<Name>, buckets: seq<nat>, chains: seq<nat>, i: nat)
    requires |buckets| == 3 && |chains| == |names| && i < |names| && LowestIndex(names, names[i], i)
    requires Indexed(buckets, chains, PyBuckets(names, |buckets|), AllIncluded(|names|), |names|)
    requires PyHash(names[i]) == 0x1_0000_0002 && ElfHashSpec(names[i]) == 2
    ensures FoundAfter(names, buckets, chains, names[i]) == 0
  {
    RebuiltLookupExact(names, buckets, chains, i);
  }

  /** With three buckets, an export of that name is in the rebuilt table and is never found. */
  lemma {:induction false} RebuiltLookupMisses(names: seq<Name>, buckets: seq<nat>, chains: seq<nat>, i: nat, a: Byte,
                                               f: Byte, z: Byte)
    requires |buckets| == 3 && |chains| == |names| && i < |names| && LowestIndex(names, names[i], i)
    requires Indexed(buckets, chains, PyBuckets(names, |buckets|), AllIncluded(|names|), |names|)
    requires a == 0xff && f == 0x0f && z == 0x12 && names[i] == [a, f, f, f, f, f, z]
    ensures FoundAfter(names, buckets, chains, names[i]) == 0
  {
    HashesDiffer(a, f, z, names[i]);
    ApartBuckets(names, buckets, chains, i);
  }
}
