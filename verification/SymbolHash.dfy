/** The System V hash function and hash table (chapter 5 of the System V gABI) as the sidecar builds them. */
module SymbolHash {
  import opened Bytes

  type Name = seq<Byte>

  // ----- the hash function

  function Xor4(a: Nibble, b: Nibble): (r: Nibble)
    ensures b == 0 ==> r == a
  {
    var x := (a as bv4) ^ (b as bv4);
    XorZero(a as bv4);
    x as int
  }

  lemma {:induction false} XorZero(a: bv4)
    ensures a ^ 0 == a
  {
  }

  /** y with the nibble h exclusive-ored into bits 4 to 7: what "hash ^= high >> 24" does below bit 28. */
  function Mix(y: int, h: Nibble): (r: int)
    requires 0 <= y < 0x1000_0000
    ensures 0 <= r < 0x1000_0000
    ensures h == 0 ==> r == y
  {
    y - 16 * (y / 16 % 16) + 16 * Xor4(y / 16 % 16, h)
  }

  /** One byte of the C++ elf_hash: the shift and the sum wrap at 32 bits. */
  function HashStep(hash: U32, byte: Byte): U32 {
    var x := Wrap32(16 * hash + byte);
    Mix(x % 0x1000_0000, x / 0x1000_0000)
  }

  function HashFrom(hash: U32, name: Name): U32
    decreases |name|
  {
    if name == [] then hash else HashFrom(HashStep(hash, name[0]), name[1..])
  }

  function ElfHashSpec(name: Name): U32 { HashFrom(0, name) }

  method ElfHash(name: Name) returns (hash: U32)
    ensures hash == ElfHashSpec(name) < 0x1000_0000
  {
    hash := 0;
    var i := 0;
    assert name[0..] == name;
    while i < |name|
      invariant 0 <= i <= |name| && hash < 0x1000_0000
      invariant HashFrom(hash, name[i..]) == ElfHashSpec(name)
    {
      assert name[i..][1..] == name[i + 1..];
      hash := HashStep(hash, name[i]);
      i := i + 1;
    }
  }

  // ----- tables

  /** Links only lead forward. */
  predicate Forward(chains: seq<nat>) {
    forall c :: 0 <= c < |chains| ==> chains[c] == 0 || c < chains[c] < |chains|
  }

  /** The symbols met when following a chain from an index. */
  function Walk(chains: seq<nat>, c: nat): seq<nat>
    requires Forward(chains)
    decreases if c == 0 || c >= |chains| then 0 else |chains| - c
  {
    if c == 0 || c >= |chains| then [] else [c] + Walk(chains, chains[c])
  }

  /** The indices from 1 below k that belong to bucket b, in ascending order. */
  function Members(bucketOf: seq<nat>, included: seq<bool>, b: nat, k: nat): seq<nat>
    requires k <= |bucketOf| == |included|
  {
    if k <= 1 then []
    else
      var before := Members(bucketOf, included, b, k - 1);
      if included[k - 1] && bucketOf[k - 1] == b then before + [k - 1] else before
  }

  lemma {:induction false} MembersAre(bucketOf: seq<nat>, included: seq<bool>, b: nat, k: nat)
    requires k <= |bucketOf| == |included|
    ensures forall i :: i in Members(bucketOf, included, b, k) <==> 1 <= i < k && included[i] && bucketOf[i] == b
    ensures Increasing(Members(bucketOf, included, b, k))
  {
    if k > 1 {
      MembersAre(bucketOf, included, b, k - 1);
      MembersStep(Members(bucketOf, included, b, k - 1), bucketOf, included, b, k);
    }
  }

  lemma {:induction false} MembersStep(before: seq<nat>, bucketOf: seq<nat>, included: seq<bool>, b: nat, k: nat)
    requires 1 < k <= |bucketOf| == |included| && Increasing(before)
    requires forall i :: i in before <==> 1 <= i < k - 1 && included[i] && bucketOf[i] == b
    ensures var m := if included[k - 1] && bucketOf[k - 1] == b then before + [k - 1] else before;
            Increasing(m) && forall i :: i in m <==> 1 <= i < k && included[i] && bucketOf[i] == b
  {
    assert forall x :: 0 <= x < |before| ==> before[x] in before;
    assert forall i :: i in before + [k - 1] <==> i in before || i == k - 1;
  }

  predicate Increasing(m: seq<nat>) { forall x, y :: 0 <= x < y < |m| ==> m[x] < m[y] }

  /** Every bucket's chain visits exactly its members among the first k symbols. */
  predicate Indexed(buckets: seq<nat>, chains: seq<nat>, bucketOf: seq<nat>, included: seq<bool>, k: nat)
    requires k <= |bucketOf| == |included| == |chains|
  {
    && Forward(chains)
    && forall b :: 0 <= b < |buckets| ==> Walk(chains, buckets[b]) == Members(bucketOf, included, b, k)
  }

  lemma {:induction false} EmptyIndexed(buckets: seq<nat>, chains: seq<nat>, bucketOf: seq<nat>, included: seq<bool>)
    requires 1 <= |bucketOf| == |included| == |chains|
    requires forall b :: 0 <= b < |buckets| ==> buckets[b] == 0
    requires forall c :: 0 <= c < |chains| ==> chains[c] == 0
    ensures Indexed(buckets, chains, bucketOf, included, 1)
  {
  }

  /** Rewriting a link that a walk does not pass leaves the walk alone. */
  lemma {:induction false} WalkElsewhere(chains: seq<nat>, c: nat, at: nat, k: nat)
    requires Forward(chains) && at < k < |chains| && at !in Walk(chains, c)
    ensures Forward(chains[at := k]) && Walk(chains[at := k], c) == Walk(chains, c)
    decreases if c == 0 || c >= |chains| then 0 else |chains| - c
  {
    if c != 0 && c < |chains| {
      WalkElsewhere(chains, chains[c], at, k);
    }
  }

  /** Linking a new last symbol appends it to the walk. */
  lemma {:induction false} WalkAppend(chains: seq<nat>, c: nat, last: nat, k: nat)
    requires Forward(chains) && last < k < |chains| && chains[k] == 0 && k > 0
    requires Walk(chains, c) != [] && Walk(chains, c)[|Walk(chains, c)| - 1] == last && chains[last] == 0
    ensures Forward(chains[last := k]) && Walk(chains[last := k], c) == Walk(chains, c) + [k]
    decreases if c == 0 || c >= |chains| then 0 else |chains| - c
  {
    var after := chains[last := k];
    if c == last {
      assert Walk(after, k) == [k] + Walk(after, 0);
      assert Walk(chains, c) == [c] + Walk(chains, 0);
    } else {
      var rest := Walk(chains, chains[c]);
      assert Walk(chains, c) == [c] + rest;
      assert rest != [];
      WalkAppend(chains, chains[c], last, k);
    }
  }

  /** Finds the end of a chain the way the builder does. */
  method ChainEnd(chains: array<nat>, first: nat) returns (last: nat)
    requires Forward(chains[..]) && 0 < first < chains.Length
    ensures last < chains.Length && chains[last] == 0
    ensures Walk(chains[..], first) != [] && Walk(chains[..], first)[|Walk(chains[..], first)| - 1] == last
  {
    ghost var s := chains[..];
    last := first;
    while chains[last] != 0
      invariant 0 < last < chains.Length
      invariant Walk(s, last) != [] && Walk(s, first) != []
      invariant Walk(s, first)[|Walk(s, first)| - 1] == Walk(s, last)[|Walk(s, last)| - 1]
      decreases chains.Length - last
    {
      assert s[last] == chains[last];
      assert Walk(s, last) == [last] + Walk(s, s[last]);
      last := chains[last];
      assert Walk(s, last) == [last] + Walk(s, s[last]);
    }
    assert s[last] == 0;
    assert Walk(s, last) == [last] + Walk(s, 0);
  }

  lemma {:induction false} StillIndexed(buckets: seq<nat>, chains: seq<nat>, bucketOf: seq<nat>, included: seq<bool>,
                                        k: nat)
    requires 1 <= k < |bucketOf| == |included| == |chains| && Indexed(buckets, chains, bucketOf, included, k)
    requires !included[k]
    ensures Indexed(buckets, chains, bucketOf, included, k + 1)
  {
  }

  lemma {:induction false} FirstInBucket(buckets: seq<nat>, chains: seq<nat>, bucketOf: seq<nat>, included: seq<bool>,
                                         k: nat)
    requires 1 <= k < |bucketOf| == |included| == |chains| && Indexed(buckets, chains, bucketOf, included, k)
    requires included[k] && bucketOf[k] < |buckets| && buckets[bucketOf[k]] == 0 && chains[k] == 0
    ensures Indexed(buckets[bucketOf[k] := k], chains, bucketOf, included, k + 1)
  {
    assert Walk(chains, k) == [k] + Walk(chains, 0);
    assert Walk(chains, 0) == Members(bucketOf, included, bucketOf[k], k);
  }

  lemma {:induction false} LaterInBucket(buckets: seq<nat>, chains: seq<nat>, bucketOf: seq<nat>, included: seq<bool>,
                                         k: nat, last: nat)
    requires 1 <= k < |bucketOf| == |included| == |chains| && Indexed(buckets, chains, bucketOf, included, k)
    requires included[k] && bucketOf[k] < |buckets| && chains[k] == 0 && last < |chains| && chains[last] == 0
    requires var w := Walk(chains, buckets[bucketOf[k]]); w != [] && w[|w| - 1] == last
    ensures last < k && Indexed(buckets, chains[last := k], bucketOf, included, k + 1)
  {
    var own := bucketOf[k];
    MembersAre(bucketOf, included, own, k);
    assert last in Members(bucketOf, included, own, k);
    forall b | 0 <= b < |buckets|
      ensures Forward(chains[last := k]) && Walk(chains[last := k], buckets[b]) == Members(bucketOf, included, b, k + 1)
    {
      if b == own {
        WalkAppend(chains, buckets[b], last, k);
      } else {
        MembersAre(bucketOf, included, b, k);
        WalkElsewhere(chains, buckets[b], last, k);
      }
    }
  }

  /** One included symbol: first in its bucket, or linked after the end of its chain. */
  method LinkSymbol(buckets: array<nat>, chains: array<nat>, bucketOf: seq<nat>, included: seq<bool>, index: nat)
    requires 1 <= index < |bucketOf| == |included| == chains.Length && buckets != chains
    requires Indexed(buckets[..], chains[..], bucketOf, included, index) && included[index]
    requires bucketOf[index] < buckets.Length && forall b :: 0 <= b < buckets.Length ==> buckets[b] < index
    requires forall c :: index <= c < |bucketOf| ==> chains[c] == 0
    modifies buckets, chains
    ensures Indexed(buckets[..], chains[..], bucketOf, included, index + 1)
    ensures forall b :: 0 <= b < buckets.Length ==> buckets[b] < index + 1
    ensures forall c :: index + 1 <= c < |bucketOf| ==> chains[c] == 0
  {
    var bucket := bucketOf[index];
    ghost var b0, c0 := buckets[..], chains[..];
    if buckets[bucket] == 0 {
      FirstInBucket(b0, c0, bucketOf, included, index);
      buckets[bucket] := index;
      assert buckets[..] == b0[bucket := index];
    } else {
      var current := ChainEnd(chains, buckets[bucket]);
      LaterInBucket(b0, c0, bucketOf, included, index, current);
      chains[current] := index;
      assert chains[..] == c0[current := index];
    }
  }

  /** The bucket and chain loop; symbols that are not included stay out of every chain. */
  method BuildTable(bucketOf: seq<nat>, included: seq<bool>, bucketCount: nat) returns (buckets: array<nat>,
                    chains: array<nat>)
    requires 1 <= |bucketOf| == |included| && forall i :: 0 <= i < |bucketOf| ==> bucketOf[i] < bucketCount
    ensures fresh(buckets) && fresh(chains) && buckets.Length == bucketCount && chains.Length == |bucketOf|
    ensures Indexed(buckets[..], chains[..], bucketOf, included, |bucketOf|)
    ensures forall b :: 0 <= b < bucketCount ==> buckets[b] < |bucketOf|
  {
    buckets := new nat[bucketCount](_ => 0);
    chains := new nat[|bucketOf|](_ => 0);
    EmptyIndexed(buckets[..], chains[..], bucketOf, included);
    var index: nat := 1;
    while index < |bucketOf|
      invariant 1 <= index <= |bucketOf|
      invariant Indexed(buckets[..], chains[..], bucketOf, included, index)
      invariant forall b :: 0 <= b < bucketCount ==> buckets[b] < index
      invariant forall c :: index <= c < |bucketOf| ==> chains[c] == 0
    {
      if !included[index] {
        StillIndexed(buckets[..], chains[..], bucketOf, included, index);
      } else {
        LinkSymbol(buckets, chains, bucketOf, included, index);
      }
      index := index + 1;
    }
  }

  // ----- lookup

  /** The first symbol with this name along a walk, or 0. */
  function FirstNamed(walk: seq<nat>, names: seq<Name>, key: Name): nat
    requires InBounds(walk, |names|)
    decreases |walk|
  {
    if walk == [] then 0 else if names[walk[0]] == key then walk[0] else FirstNamed(walk[1..], names, key)
  }

  predicate InBounds(walk: seq<nat>, n: nat) { forall x :: 0 <= x < |walk| ==> 0 < walk[x] < n }

  /** dlsym's walk: compare along the chain of the key's bucket. */
  method LookupName(buckets: seq<nat>, chains: seq<nat>, names: seq<Name>, bucket: nat, key: Name) returns (r: nat)
    requires Forward(chains) && |chains| == |names| && bucket < |buckets| && buckets[bucket] < |chains|
    ensures InBounds(Walk(chains, buckets[bucket]), |names|)
    ensures r == FirstNamed(Walk(chains, buckets[bucket]), names, key)
  {
    WalkInside(chains, buckets[bucket]);
    r := buckets[bucket];
    while r != 0
      invariant r < |chains|
      invariant InBounds(Walk(chains, r), |names|)
      invariant FirstNamed(Walk(chains, r), names, key) == FirstNamed(Walk(chains, buckets[bucket]), names, key)
      decreases if r == 0 then 0 else |chains| - r
    {
      if names[r] == key {
        return;
      }
      assert Walk(chains, r)[1..] == Walk(chains, chains[r]);
      WalkInside(chains, chains[r]);
      r := chains[r];
    }
  }

  lemma {:induction false} WalkInside(chains: seq<nat>, c: nat)
    requires Forward(chains)
    ensures InBounds(Walk(chains, c), |chains|)
    decreases if c == 0 || c >= |chains| then 0 else |chains| - c
  {
    if c != 0 && c < |chains| {
      WalkInside(chains, chains[c]);
    }
  }

  /** r is the lowest included symbol of bucket b that has the name, or 0 if there is none. */
  predicate LowestNamed(r: nat, names: seq<Name>, bucketOf: seq<nat>, included: seq<bool>, b: nat, key: Name)
    requires |names| == |bucketOf| == |included|
  {
    && (r == 0 || (r < |names| && included[r] && bucketOf[r] == b && names[r] == key))
    && forall i :: 1 <= i < |names| && included[i] && bucketOf[i] == b && names[i] == key ==> 0 < r <= i
  }

  lemma {:induction false} FirstNamedIsLowest(walk: seq<nat>, names: seq<Name>, key: Name)
    requires InBounds(walk, |names|)
    requires Increasing(walk)
    ensures var r := FirstNamed(walk, names, key);
            && (r == 0 || (r in walk && names[r] == key))
            && forall i :: i in walk && names[i] == key ==> 0 < r <= i
  {
    if walk != [] && names[walk[0]] != key {
      FirstNamedIsLowest(walk[1..], names, key);
    }
  }

  /** Lookup through the index is sound and complete for the symbols included in it. */
  lemma {:induction false} IndexExact(buckets: seq<nat>, chains: seq<nat>, names: seq<Name>, bucketOf: seq<nat>,
                                      included: seq<bool>, b: nat, key: Name)
    requires |names| == |bucketOf| == |included| == |chains| && Indexed(buckets, chains, bucketOf, included, |names|)
    requires b < |buckets|
    ensures InBounds(Walk(chains, buckets[b]), |names|)
    ensures LowestNamed(FirstNamed(Walk(chains, buckets[b]), names, key), names, bucketOf, included, b, key)
  {
    MembersAre(bucketOf, included, b, |names|);
    WalkInside(chains, buckets[b]);
    var walk := Walk(chains, buckets[b]);
    assert walk == Members(bucketOf, included, b, |names|);
    FirstNamedIsLowest(Walk(chains, buckets[b]), names, key);
  }
}
