/** UNWIND_INFO records and resolve_unwind, which follows and memoises their chains (src/pe_sidecar.cpp:316-468). */
module ChainResolve {
  import opened Bytes
  import opened Wrappers
  import opened Prolog
  import opened WindowsUnwinder
  import opened UnwindCodes
  import opened PeView

  const MAX_CHAIN_DEPTH: nat := 32

  /** One record by itself: its own operations and the RVA of the record it is chained to. */
  datatype Record = Record(prologSize: U8, operations: seq<Operation>, parent: Option<U32>)

  /** A record with everything it inherits. */
  datatype UnwindInfo = UnwindInfo(inherited: seq<Operation>, operations: seq<Operation>,
                                   all: seq<Operation>, prologSize: U8)

  function PaddedCount(codeCount: U8): nat { (codeCount + 1) / 2 * 2 }

  function HeaderAt(pe: Pe, rva: U32): Header
    requires rva + 4 <= |pe.image|
  {
    Header(pe.image[rva + 1], pe.image[rva] / 8 == 4, pe.image[rva + 3] % 16, pe.image[rva + 3] / 16 * 16)
  }

  /** Version 1, no unknown flag, no chain together with a handler; a frame register must be nonvolatile. */
  predicate AcceptableHeader(pe: Pe, rva: U32) {
    && InRange(pe, rva, 4, pe.mapped)
    && pe.image[rva] % 8 == 1
    && pe.image[rva] / 8 <= 4
    && ValidHeader(HeaderAt(pe, rva))
    && InRange(pe, rva, 4 + PaddedCount(pe.image[rva + 2]) * 2, pe.mapped)
  }

  function Trailer(pe: Pe, rva: U32): nat
    requires rva + 4 <= |pe.image|
  {
    rva + 4 + PaddedCount(pe.image[rva + 2]) * 2
  }

  /** The checks on the chained RUNTIME_FUNCTION after the codes. */
  predicate AcceptableLink(pe: Pe, trailer: nat) {
    && InRange(pe, trailer, 12, pe.mapped)
    && var begin, end, unwind := U32At(pe.image, trailer), U32At(pe.image, trailer + 4), U32At(pe.image, trailer + 8);
    && 0 < begin < end
    && InRange(pe, begin, end - begin, pe.executable)
    && unwind % 4 == 0
    && InRange(pe, unwind, 4, pe.mapped)
  }

  predicate AcceptableHandler(pe: Pe, trailer: nat) {
    && InRange(pe, trailer, 4, pe.mapped)
    && InRange(pe, U32At(pe.image, trailer), 1, pe.executable)
  }

  function CodesAt(pe: Pe, rva: U32): (s: seq<Byte>)
    requires AcceptableHeader(pe, rva)
    ensures |s| % 2 == 0 && |s| <= 2 * 255
  {
    var count: int := pe.image[rva + 2];
    pe.image[rva + 4..rva + 4 + 2 * count]
  }

  function RecordAt(pe: Pe, rva: U32): Option<Record> {
    if !AcceptableHeader(pe, rva) then None
    else
      var h := HeaderAt(pe, rva);
      var ops :- DecodeCodes(h, CodesAt(pe, rva));
      var flags, trailer := pe.image[rva] / 8, Trailer(pe, rva);
      if flags == 4 then
        if AcceptableLink(pe, trailer) then Some(Record(h.prologSize, ops, Some(U32At(pe.image, trailer + 8))))
           else None
      else if flags == 0 || AcceptableHandler(pe, trailer) then Some(Record(h.prologSize, ops, None))
      else None
  }

  type Records = U32 -> Option<Record>

  function RecordsOf(pe: Pe): Records { (rva: U32) => RecordAt(pe, rva) }

  /** Whatever decodes contributes at most 255 well-formed operations in ascending order. */
  predicate DecodedRecord(r: Record) {
    AllWellFormed(r.operations) && SortedByOffset(r.operations) && OneHeader(r.operations) && |r.operations| <= 255
  }

  lemma {:induction false} RecordsDecoded(pe: Pe, rva: U32)
    requires RecordAt(pe, rva).Some?
    ensures DecodedRecord(RecordAt(pe, rva).value)
  {
    DecodedCodes(HeaderAt(pe, rva), CodesAt(pe, rva));
  }

  // ----- chains, without cache or depth limit

  /** rva holds a record whose parent link is the given one. */
  predicate Link(rec: Records, rva: U32, parent: Option<U32>) {
    rec(rva).Some? && rec(rva).value.parent == parent
  }

  /** A path of records from a leaf to the root of its chain. */
  predicate IsChain(rec: Records, path: seq<U32>) {
    && path != []
    && (if |path| == 1 then Link(rec, path[0], None)
        else Link(rec, path[0], Some(path[1])) && IsChain(rec, path[1..]))
  }

  function OwnOps(rec: Records, rva: U32): seq<Operation> { if rec(rva).Some? then rec(rva).value.operations else [] }

  /** Root-to-leaf concatenation of the operations along a chain. */
  function ChainOps(rec: Records, path: seq<U32>): seq<Operation> {
    if path == [] then [] else ChainOps(rec, path[1..]) + OwnOps(rec, path[0])
  }

  function ChainInfo(rec: Records, path: seq<U32>): UnwindInfo
    requires IsChain(rec, path)
  {
    UnwindInfo(ChainOps(rec, path[1..]), OwnOps(rec, path[0]), ChainOps(rec, path), rec(path[0]).value.prologSize)
  }

  /** The parent link is a function, so a record has at most one chain. */
  lemma {:induction false} ChainUnique(rec: Records, a: seq<U32>, b: seq<U32>)
    requires IsChain(rec, a) && IsChain(rec, b) && a[0] == b[0]
    ensures a == b
    decreases |a|
  {
    if |a| > 1 && |b| > 1 {
      ChainUnique(rec, a[1..], b[1..]);
      assert a == [a[0]] + a[1..] && b == [b[0]] + b[1..];
    }
  }

  lemma {:induction false} ChainSuffix(rec: Records, path: seq<U32>, i: nat)
    requires IsChain(rec, path) && i < |path|
    ensures IsChain(rec, path[i..])
  {
    if i > 0 {
      ChainSuffix(rec, path[1..], i - 1);
      assert path[1..][i - 1..] == path[i..];
    } else {
      assert path[i..] == path;
    }
  }

  lemma {:induction false} ChainAcyclic(rec: Records, path: seq<U32>, i: nat, j: nat)
    requires IsChain(rec, path) && i < j < |path|
    ensures path[i] != path[j]
  {
    if path[i] == path[j] {
      ChainSuffix(rec, path, i);
      ChainSuffix(rec, path, j);
      ChainUnique(rec, path[i..], path[j..]);
      assert false;
    }
  }

  /** A walk along parent links, not necessarily ending at a root. */
  predicate IsWalk(rec: Records, walk: seq<U32>) {
    |walk| > 1 ==> Link(rec, walk[0], Some(walk[1])) && IsWalk(rec, walk[1..])
  }

  lemma {:induction false} WalkSuffix(rec: Records, walk: seq<U32>, i: nat)
    requires IsWalk(rec, walk) && i <= |walk|
    ensures IsWalk(rec, walk[i..])
  {
    if 0 < i && 1 < |walk| {
      WalkSuffix(rec, walk[1..], i - 1);
      assert walk[1..][i - 1..] == walk[i..];
    } else if i == 0 {
      assert walk[i..] == walk;
    }
  }

  lemma {:induction false} WalkFollowsChain(rec: Records, walk: seq<U32>, path: seq<U32>, i: nat)
    requires IsWalk(rec, walk) && IsChain(rec, path) && i < |walk| && walk[0] == path[0]
    ensures i < |path| && walk[i] == path[i]
  {
    if i > 0 {
      WalkFollowsChain(rec, walk[1..], path[1..], i - 1);
    }
  }

  /** A record from which links come back to a record already seen has no chain. */
  lemma {:induction false} CyclicHasNoChain(rec: Records, walk: seq<U32>, path: seq<U32>, i: nat, j: nat)
    requires IsWalk(rec, walk) && IsChain(rec, path) && i < j < |walk| && walk[i] == walk[j]
    ensures walk[0] != path[0]
  {
    if walk[0] == path[0] {
      WalkFollowsChain(rec, walk, path, i);
      WalkFollowsChain(rec, walk, path, j);
      ChainAcyclic(rec, path, i, j);
    }
  }

  lemma {:induction false} ChainOpsWellFormed(rec: Records, path: seq<U32>)
    requires forall r :: rec(r).Some? ==> DecodedRecord(rec(r).value)
    ensures AllWellFormed(ChainOps(rec, path)) && |ChainOps(rec, path)| <= 255 * |path|
  {
    if path != [] {
      ChainOpsWellFormed(rec, path[1..]);
      assert AllWellFormed(OwnOps(rec, path[0])) && |OwnOps(rec, path[0])| <= 255;
    }
  }

  // ----- the memoised resolver

  /** How many records come before the first cached one (the root counts as cached). */
  function FirstCached(path: seq<U32>, cached: set<U32>): (n: nat)
    ensures path != [] ==> n < |path|
  {
    if |path| <= 1 || path[0] in cached then 0 else 1 + FirstCached(path[1..], cached)
  }

  /** The chain of rva leads to an answer before the recursion limit, started at the given stack depth. */
  predicate Resolvable(rec: Records, path: seq<U32>, rva: U32, depth: nat, cached: set<U32>) {
    IsChain(rec, path) && path[0] == rva && depth + FirstCached(path, cached) < MAX_CHAIN_DEPTH
  }

  ghost predicate Unresolvable(rec: Records, rva: U32, depth: nat, cached: set<U32>) {
    forall path :: !Resolvable(rec, path, rva, depth, cached)
  }

  class Resolver {
    const rec: Records
    var cache: map<U32, UnwindInfo>
    var stack: seq<U32>
    /** The chain behind each cached record. */
    ghost var paths: map<U32, seq<U32>>

    constructor (rec: Records)
      ensures this.rec == rec && Valid() && stack == [] && cache == map[]
    {
      this.rec := rec;
      cache, stack, paths := map[], [], map[];
    }

    /** A memoised result is that of the record's whole chain, and the parent's is memoised too. */
    ghost predicate ValidEntry(r: U32)
      requires r in cache && r in paths
      reads this
    {
      && IsChain(rec, paths[r]) && paths[r][0] == r
      && cache[r] == ChainInfo(rec, paths[r])
      && (|paths[r]| > 1 ==> paths[r][1] in cache)
    }

    ghost predicate Valid()
      reads this
    {
      paths.Keys == cache.Keys && forall r :: r in cache ==> ValidEntry(r)
    }

    /** The records in progress lead to rva by parent links. */
    ghost predicate InProgress(rva: U32)
      reads this
    {
      |stack| <= MAX_CHAIN_DEPTH && IsWalk(rec, stack + [rva])
    }

    /**
     * Succeeds exactly when the record has a chain whose uncached part fits the recursion limit, and then gives
     * the uncached root-to-leaf result. A failure is an exception that ends the whole parse, so nothing is
     * promised of the state afterwards.
     */
    method Resolve(rva: U32) returns (r: Option<UnwindInfo>)
      requires Valid() && InProgress(rva)
      modifies this
      ensures r.Some? ==> Valid() && stack == old(stack) && rva in cache && r.value == cache[rva]
      ensures r.Some? ==> old(cache.Keys) <= cache.Keys && forall x :: x in old(cache) ==> cache[x] == old(cache)[x]
      ensures r.Some? ==> Resolvable(rec, paths[rva], rva, old(|stack|), old(cache.Keys))
      ensures r.Some? ==> forall x :: x in cache ==> x in old(cache) || x in paths[rva]
      ensures r.None? ==> Unresolvable(rec, rva, old(|stack|), old(cache.Keys))
      decreases MAX_CHAIN_DEPTH - |stack|, 1
    {
      if rva in stack {
        NoChainFrom(stack, rva);
        return None;
      }
      if |stack| >= MAX_CHAIN_DEPTH {
        return None;
      }
      if rva in cache {
        return Some(cache[rva]);
      }
      var record := rec(rva);
      if record.None? {
        NoRecordNoChain(rva);
        return None;
      }
      if record.value.parent.None? {
        Remember(rva, [rva], [], record.value);
        return Some(cache[rva]);
      }
      r := ResolveChained(rva, record.value);
    }

    /** The chained case: the record is on the stack while its parent is resolved. */
    method ResolveChained(rva: U32, record: Record) returns (r: Option<UnwindInfo>)
      requires Valid() && InProgress(rva) && |stack| < MAX_CHAIN_DEPTH && rva !in cache
      requires rec(rva) == Some(record) && record.parent.Some?
      modifies this
      ensures r.Some? ==> Valid() && stack == old(stack) && rva in cache && r.value == cache[rva]
      ensures r.Some? ==> old(cache.Keys) <= cache.Keys && forall x :: x in old(cache) ==> cache[x] == old(cache)[x]
      ensures r.Some? ==> Resolvable(rec, paths[rva], rva, old(|stack|), old(cache.Keys))
      ensures r.Some? ==> forall x :: x in cache ==> x in old(cache) || x in paths[rva]
      ensures r.None? ==> Unresolvable(rec, rva, old(|stack|), old(cache.Keys))
      decreases MAX_CHAIN_DEPTH - |stack|, 0
    {
      var link := record.parent.value;
      stack := stack + [rva];
      WalkExtends(old(stack), rva, link);
      var parent := Resolve(link);
      if parent.None? {
        ParentUnresolvable(rva, link, |old(stack)|, old(cache.Keys));
        return None;
      }
      stack := stack[..|stack| - 1];
      ghost var path := [rva] + paths[link];
      assert path[1..] == paths[link];
      if rva in paths[link] {
        var i :| 0 <= i < |paths[link]| && paths[link][i] == rva;
        ChainAcyclic(rec, path, 0, i + 1);
      }
      Remember(rva, path, parent.value.all, record);
      r := Some(cache[rva]);
    }

    /** Stores the result of a record whose inherited operations are known. */
    method Remember(rva: U32, ghost path: seq<U32>, inherited: seq<Operation>, record: Record)
      requires Valid() && rva !in cache && rec(rva) == Some(record)
      requires IsChain(rec, path) && path[0] == rva && inherited == ChainOps(rec, path[1..])
      requires |path| > 1 ==> path[1] in cache
      modifies this`cache, this`paths
      ensures Valid() && paths == old(paths)[rva := path] && cache.Keys == old(cache.Keys) + {rva}
      ensures old(cache.Keys) <= cache.Keys && forall x :: x in old(cache) ==> cache[x] == old(cache)[x]
    {
      var all := inherited + record.operations;
      InfoIs(path, inherited, record);
      cache := cache[rva := UnwindInfo(inherited, record.operations, all, record.prologSize)];
      paths := paths[rva := path];
      forall r | r in cache ensures ValidEntry(r) {
        assert r != rva ==> old(ValidEntry(r));
      }
    }

    lemma {:induction false} InfoIs(path: seq<U32>, inherited: seq<Operation>, record: Record)
      requires IsChain(rec, path) && rec(path[0]) == Some(record) && inherited == ChainOps(rec, path[1..])
      ensures ChainInfo(rec, path)
              == UnwindInfo(inherited, record.operations, inherited + record.operations, record.prologSize)
    {
    }

    /** With a record its whole chain is cached. */
    lemma {:induction false} CachesAll(rva: U32, path: seq<U32>)
      requires Valid() && rva in cache && path == paths[rva]
      ensures forall x :: x in path ==> x in cache
      decreases |path|
    {
      if |path| > 1 {
        ChainUnique(rec, path[1..], paths[path[1]]);
        CachesAll(path[1], path[1..]);
        assert path == [path[0]] + path[1..];
      }
    }

    lemma {:induction false} NoRecordNoChain(rva: U32)
      requires rec(rva).None?
      ensures forall path :: IsChain(rec, path) ==> path[0] != rva
    {
    }

    lemma {:induction false} NoChainFrom(stack: seq<U32>, rva: U32)
      requires rva in stack && IsWalk(rec, stack + [rva])
      ensures forall path :: IsChain(rec, path) ==> path[0] != rva
    {
      var walk := stack + [rva];
      var i :| 0 <= i < |stack| && stack[i] == rva;
      WalkSuffix(rec, walk, i);
      forall path | IsChain(rec, path) ensures path[0] != rva {
        CyclicHasNoChain(rec, walk[i..], path, 0, |stack| - i);
      }
    }

    lemma {:induction false} WalkExtends(before: seq<U32>, rva: U32, link: U32)
      requires IsWalk(rec, before + [rva]) && Link(rec, rva, Some(link))
      ensures IsWalk(rec, before + [rva] + [link])
      decreases |before|
    {
      var walk := before + [rva];
      if before != [] {
        assert walk[1..] == before[1..] + [rva];
        WalkExtends(before[1..], rva, link);
        assert (walk + [link])[1..] == before[1..] + [rva] + [link];
      } else {
        assert (walk + [link])[1..] == [link];
      }
    }

    lemma {:induction false} ParentUnresolvable(rva: U32, link: U32, depth: nat, cached: set<U32>)
      requires Link(rec, rva, Some(link)) && rva !in cached
      requires Unresolvable(rec, link, depth + 1, cached)
      ensures Unresolvable(rec, rva, depth, cached)
    {
      forall path | IsChain(rec, path) && path[0] == rva ensures !Resolvable(rec, path, rva, depth, cached) {
        assert !Resolvable(rec, path[1..], link, depth + 1, cached);
      }
    }
  }
}
