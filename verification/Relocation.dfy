/** Base relocation in place (src/pe_loader.cpp:749-793). */
module Relocation {
  import opened Bytes
  import opened Words

  // ----- relocation entries

  datatype Entry = Absolute | HighLow(at: nat) | Dir64(at: nat) | Unknown(kind: nat)

  /** How many bytes an entry rewrites. */
  function Width(e: Entry): nat {
    match e case HighLow(_) => 4 case Dir64(_) => 8 case _ => 0
  }

  function Target(e: Entry): nat {
    match e case HighLow(at) => at case Dir64(at) => at case _ => 0
  }

  /** A fixup word: its top four bits are the type, the rest the offset in the page. */
  function EntryOf(page: U32, fixup: U16): Entry {
    var at := Wrap32(page + fixup % 0x1000);
    if fixup / 0x1000 == 0 then Absolute
    else if fixup / 0x1000 == 3 then HighLow(at)
    else if fixup / 0x1000 == 10 then Dir64(at)
    else Unknown(fixup / 0x1000)
  }

  function BlockEntry(img: seq<Byte>, p: nat, i: nat): Entry
    requires p + 10 + 2 * i <= |img|
  {
    EntryOf(U32At(img, p), U16At(img, p + 8 + 2 * i))
  }

  /** How the table is read: the SizeOfBlock of the block at an address, and that block's i-th entry. */
  type Sizes = nat -> nat
  type Fixups = (nat, nat) -> Entry

  function SizesOf(img: seq<Byte>): Sizes {
    (p: nat) => if p + 8 <= |img| then U32At(img, p + 4) else 0
  }

  function FixupsOf(img: seq<Byte>): Fixups {
    (p: nat, i: nat) => if p + 10 + 2 * i <= |img| then BlockEntry(img, p, i) else Absolute
  }

  /** A table of blocks from p, ended by a block of size zero, all inside an image of that length. */
  predicate TableAt(sizes: Sizes, length: nat, p: nat)
    decreases length - p
  {
    && p + 8 <= length
    && (sizes(p) == 0 || (sizes(p) >= 8 && TableAt(sizes, length, p + sizes(p))))
  }

  /** The address just past the table. */
  function TableEnd(sizes: Sizes, length: nat, p: nat): (e: nat)
    requires TableAt(sizes, length, p)
    ensures p + 8 <= e <= length
    decreases length - p
  {
    if sizes(p) == 0 then p + 8 else TableEnd(sizes, length, p + sizes(p))
  }

  function Count(size: nat): (n: nat)
    ensures size >= 8 ==> 8 + 2 * n <= size
  {
    if size < 8 then 0 else (size - 8) / 2
  }

  /** The first n entries of the block at p. */
  function BlockEntries(fixups: Fixups, p: nat, n: nat): (s: seq<Entry>)
    ensures |s| == n && forall i :: 0 <= i < n ==> s[i] == fixups(p, i)
  {
    seq(n, i requires 0 <= i < n => fixups(p, i))
  }

  function Entries(sizes: Sizes, fixups: Fixups, length: nat, p: nat): seq<Entry>
    requires TableAt(sizes, length, p)
    decreases length - p
  {
    if sizes(p) == 0 then []
    else BlockEntries(fixups, p, Count(sizes(p))) + Entries(sizes, fixups, length, p + sizes(p))
  }

  // ----- what relocating means

  predicate Fits(size: nat, e: Entry) { Target(e) + Width(e) <= size }

  /** The word an entry names moves by delta, modulo its width. */
  function Shift(img: seq<Byte>, e: Entry, delta: int): (r: seq<Byte>)
    ensures |r| == |img|
  {
    var at, w := Target(e), Width(e);
    if Fits(|img|, e) then Replace(img, at, Encode(Value(img[at..at + w]) + delta, w)) else img
  }

  type Step = (seq<Byte>, Entry) -> seq<Byte>

  function ShiftBy(delta: int): Step { (s: seq<Byte>, e: Entry) => Shift(s, e, delta) }

  /** The image after the first n entries. */
  function Fold(step: Step, img: seq<Byte>, es: seq<Entry>, n: nat): seq<Byte>
    requires n <= |es|
  {
    if n == 0 then img else step(Fold(step, img, es, n - 1), es[n - 1])
  }

  function ShiftAll(img: seq<Byte>, es: seq<Entry>, delta: int): seq<Byte> { Fold(ShiftBy(delta), img, es, |es|) }

  predicate Inside(size: nat, es: seq<Entry>) { forall i :: 0 <= i < |es| ==> Fits(size, es[i]) }

  predicate Covers(e: Entry, a: int) { Target(e) <= a < Target(e) + Width(e) }

  predicate Separate(e: Entry, f: Entry) {
    Target(e) + Width(e) <= Target(f) || Target(f) + Width(f) <= Target(e)
  }

  predicate Disjoint(es: seq<Entry>) { forall i, j :: 0 <= i < j < |es| ==> Separate(es[i], es[j]) }

  /** No entry rewrites a byte in [from, to). */
  predicate Avoids(es: seq<Entry>, from: nat, to: nat) {
    forall i :: 0 <= i < |es| && Width(es[i]) > 0 ==> Target(es[i]) + Width(es[i]) <= from || to <= Target(es[i])
  }

  predicate Known(es: seq<Entry>) { forall i :: 0 <= i < |es| ==> !es[i].Unknown? }

  // ----- what each step touches

  /** A step that rewrites only the bytes of its entry. */
  ghost predicate Local(step: Step) {
    && (forall s: seq<Byte>, e: Entry {:trigger step(s, e)} :: |step(s, e)| == |s|)
    && (forall s: seq<Byte>, e: Entry, a: nat {:trigger step(s, e)[a]} :: a < |s| && !Covers(e, a) ==>
        step(s, e)[a] == s[a])
  }

  lemma {:induction false} OtherStays(img: seq<Byte>, e: Entry, delta: int, a: nat)
    requires a < |img| && !Covers(e, a)
    ensures Shift(img, e, delta)[a] == img[a]
  {
    if Fits(|img|, e) {
      ReplacedAt(img, Target(e), Encode(Value(img[Target(e)..Target(e) + Width(e)]) + delta, Width(e)), a);
    }
  }

  lemma {:induction false} ShiftIsLocal(delta: int)
    ensures Local(ShiftBy(delta))
  {
    forall s: seq<Byte>, e: Entry, a: nat | a < |s| && !Covers(e, a) ensures ShiftBy(delta)(s, e)[a] == s[a] {
      OtherStays(s, e, delta, a);
    }
  }

  lemma {:induction false} OthersStay(step: Step, img: seq<Byte>, es: seq<Entry>, n: nat)
    requires Local(step) && n <= |es|
    ensures |Fold(step, img, es, n)| == |img|
    ensures forall a :: 0 <= a < |img| && (forall i :: 0 <= i < n ==> !Covers(es[i], a)) ==>
            Fold(step, img, es, n)[a] == img[a]
  {
    if n > 0 {
      OthersStay(step, img, es, n - 1);
    }
  }

  /** A region no entry reaches keeps its bytes. */
  lemma {:induction false} RegionStays(step: Step, img: seq<Byte>, es: seq<Entry>, n: nat, from: nat, to: nat)
    requires Local(step) && n <= |es| && Avoids(es, from, to) && from <= to <= |img|
    ensures |Fold(step, img, es, n)| == |img| && Fold(step, img, es, n)[from..to] == img[from..to]
  {
    OthersStay(step, img, es, n);
    var r := Fold(step, img, es, n);
    forall a | from <= a < to ensures r[a] == img[a] {
      assert forall i :: 0 <= i < n ==> !Covers(es[i], a);
    }
  }

  // ----- reading the table while relocating

  /** Words inside equal regions read the same. */
  lemma {:induction false} SameWords(x: seq<Byte>, y: seq<Byte>, from: nat, to: nat, k: nat)
    requires |x| == |y| && from <= to <= |x| && x[from..to] == y[from..to] && from <= k
    ensures k + 2 <= to ==> U16At(x, k) == U16At(y, k)
    ensures k + 4 <= to ==> U32At(x, k) == U32At(y, k)
  {
    assert forall a :: from <= a < to ==> x[a] == x[from..to][a - from] && y[a] == y[from..to][a - from];
  }

  lemma {:induction false} SameEntry(x: seq<Byte>, y: seq<Byte>, from: nat, to: nat, p: nat, i: nat)
    requires |x| == |y| && from <= to <= |x| && x[from..to] == y[from..to] && from <= p && p + 10 + 2 * i <= to
    ensures BlockEntry(x, p, i) == BlockEntry(y, p, i)
  {
    SameWords(x, y, from, to, p);
    SameWords(x, y, from, to, p + 8 + 2 * i);
  }

  /** The readers agree with an image on the blocks that lie in [from, to). */
  ghost predicate Reads(sizes: Sizes, fixups: Fixups, img: seq<Byte>, from: nat, to: nat) {
    && to <= |img|
    && (forall p: nat {:trigger U32At(img, p + 4)} :: from <= p && p + 8 <= to ==> sizes(p) == U32At(img, p + 4))
    && (forall p: nat, i: nat {:trigger BlockEntry(img, p, i)} :: from <= p && p + 10 + 2 * i <= to ==>
        fixups(p, i) == BlockEntry(img, p, i))
  }

  lemma {:induction false} OwnReaders(img: seq<Byte>, from: nat, to: nat)
    requires to <= |img|
    ensures Reads(SizesOf(img), FixupsOf(img), img, from, to)
  {
  }

  lemma {:induction false} ReadersKeep(sizes: Sizes, fixups: Fixups, x: seq<Byte>, y: seq<Byte>, from: nat, to: nat)
    requires Reads(sizes, fixups, x, from, to) && |x| == |y| && from <= to && x[from..to] == y[from..to]
    ensures Reads(sizes, fixups, y, from, to)
  {
    forall p: nat | from <= p && p + 8 <= to ensures sizes(p) == U32At(y, p + 4) {
      SameWords(x, y, from, to, p + 4);
      assert sizes(p) == U32At(x, p + 4);
    }
    forall p: nat, i: nat | from <= p && p + 10 + 2 * i <= to ensures fixups(p, i) == BlockEntry(y, p, i) {
      SameEntry(x, y, from, to, p, i);
      assert fixups(p, i) == BlockEntry(x, p, i);
    }
  }

  // ----- the loop

  /** The new contents of a slot as the source computes it, in unsigned arithmetic. */
  function Moved(v: nat, imageVa: U64, base: U64, w: nat): seq<Byte>
    requires w == 4 || w == 8
  {
    Encode((v - base + imageVa) % (if w == 4 then 0x1_0000_0000 else 0x1_0000_0000_0000_0000), w)
  }

  lemma {:induction false} MovedIs(v: nat, imageVa: U64, base: U64, w: nat)
    requires w == 4 || w == 8
    ensures Moved(v, imageVa, base, w) == Encode(v + (imageVa - base), w)
  {
    Powers();
    EncodeMod(v + (imageVa - base), w);
  }

  type Mover = (nat, nat) -> seq<Byte>

  function MoverOf(imageVa: U64, base: U64): Mover {
    (v: nat, w: nat) => if w == 4 || w == 8 then Moved(v, imageVa, base, w) else []
  }

  /** The image with one slot moved. */
  function Patched(s: seq<Byte>, e: Entry, move: Mover): seq<Byte>
    requires Fits(|s|, e)
  {
    var at, w := Target(e), Width(e);
    var bytes := move(Value(s[at..at + w]), w);
    if w == 0 || at + |bytes| > |s| then s else Replace(s, at, bytes)
  }

  /** A step that does what the loader's arithmetic does. */
  ghost predicate Loads(step: Step, move: Mover) {
    forall s: seq<Byte>, e: Entry {:trigger Patched(s, e, move)} :: Fits(|s|, e) ==> step(s, e) == Patched(s, e, move)
  }

  lemma {:induction false} MoverEncodes(imageVa: U64, base: U64)
    ensures forall v: nat, w: nat {:trigger MoverOf(imageVa, base)(v, w)} ::
              w == 4 || w == 8 ==> MoverOf(imageVa, base)(v, w) == Encode(v + (imageVa - base), w)
  {
    forall v: nat, w: nat | w == 4 || w == 8 ensures MoverOf(imageVa, base)(v, w) == Encode(v + (imageVa - base), w) {
      MovedIs(v, imageVa, base, w);
    }
  }

  lemma {:induction false} ShiftLoads(imageVa: U64, base: U64)
    ensures Loads(ShiftBy(imageVa - base), MoverOf(imageVa, base))
  {
    MoverEncodes(imageVa, base);
    forall s: seq<Byte>, e: Entry | Fits(|s|, e)
      ensures ShiftBy(imageVa - base)(s, e) == Patched(s, e, MoverOf(imageVa, base))
    {
      ShiftIsPatched(s, e, imageVa - base, MoverOf(imageVa, base));
    }
  }

  lemma {:induction false} ShiftIsPatched(s: seq<Byte>, e: Entry, delta: int, move: Mover)
    requires Fits(|s|, e)
    requires forall v: nat, w: nat {:trigger move(v, w)} :: w == 4 || w == 8 ==> move(v, w) == Encode(v + delta, w)
    ensures Shift(s, e, delta) == Patched(s, e, move)
  {
    var at, w := Target(e), Width(e);
    if w == 0 {
      NoBytes(Value(s[at..at + w]) + delta);
    }
  }

  lemma {:induction false} NoBytes(v: int)
    ensures Encode(v, 0) == []
  {
  }

  /** One fixup: loaded addresses move by the distance between where the image is and where it was linked. */
  method ApplyFixup(image: array<Byte>, e: Entry, imageVa: U64, base: U64, ghost step: Step) returns (ok: bool)
    requires Fits(image.Length, e) && Loads(step, MoverOf(imageVa, base))
    modifies image
    ensures ok <==> !e.Unknown?
    ensures image[..] == step(old(image[..]), e)
  {
    ghost var s := image[..];
    assert step(s, e) == Patched(s, e, MoverOf(imageVa, base));
    match e {
      case Absolute =>
      case HighLow(at) =>
        Store(image, at, Moved(Value(image[..][at..at + 4]), imageVa, base, 4));
      case Dir64(at) =>
        Store(image, at, Moved(Value(image[..][at..at + 8]), imageVa, base, 8));
      case Unknown(_) =>
        return false;
    }
    ok := true;
  }

  /** TypeOffset[i] of the block at p, read from the image being relocated. */
  method ReadFixup(image: array<Byte>, p: nat, i: nat, ghost sizes: Sizes, ghost fixups: Fixups, ghost from: nat,
                   ghost to: nat)
    returns (e: Entry)
    requires Reads(sizes, fixups, image[..], from, to) && from <= p && p + 10 + 2 * i <= to
    ensures e == fixups(p, i)
  {
    e := BlockEntry(image[..], p, i);
  }

  /** What stays true of the run: the table reads as it did, and the entries so far have been applied. */
  ghost predicate Going(now: seq<Byte>, img: seq<Byte>, step: Step, all: seq<Entry>, n: nat) {
    n <= |all| && |now| == |img| && now == Fold(step, img, all, n)
  }

  /** The fixed facts of one run. */
  ghost predicate Setting(img: seq<Byte>, step: Step, all: seq<Entry>, sizes: Sizes, fixups: Fixups, from: nat,
                          to: nat)
  {
    && Local(step) && Inside(|img|, all) && Avoids(all, from, to) && from <= to
    && Reads(sizes, fixups, img, from, to)
  }

  lemma {:induction false} StillReads(now: seq<Byte>, img: seq<Byte>, step: Step, all: seq<Entry>, n: nat,
                                      sizes: Sizes, fixups: Fixups, from: nat, to: nat)
    requires Setting(img, step, all, sizes, fixups, from, to) && Going(now, img, step, all, n)
    ensures Reads(sizes, fixups, now, from, to)
  {
    RegionStays(step, img, all, n, from, to);
    ReadersKeep(sizes, fixups, img, now, from, to);
  }

  /** One fixup, which is entry n of the whole table. */
  method FixupOne(image: array<Byte>, p: nat, i: nat, imageVa: U64, base: U64,
                  ghost img: seq<Byte>, ghost step: Step, ghost all: seq<Entry>, ghost n: nat,
                  ghost sizes: Sizes, ghost fixups: Fixups, ghost from: nat, ghost to: nat)
    returns (ok: bool)
    requires Setting(img, step, all, sizes, fixups, from, to) && Loads(step, MoverOf(imageVa, base))
    requires from <= p && p + 10 + 2 * i <= to && n < |all| && all[n] == fixups(p, i)
    requires Going(image[..], img, step, all, n)
    modifies image
    ensures ok <==> !all[n].Unknown?
    ensures Going(image[..], img, step, all, n + 1)
  {
    StillReads(image[..], img, step, all, n, sizes, fixups, from, to);
    var e := ReadFixup(image, p, i, sizes, fixups, from, to);
    assert Fits(|img|, all[n]);
    ok := ApplyFixup(image, e, imageVa, base, step);
  }

  /** All entries of the block at p; they are the entries of the whole table from position n0 on. */
  method FixupBlock(image: array<Byte>, p: nat, count: nat, imageVa: U64, base: U64,
                    ghost img: seq<Byte>, ghost step: Step, ghost all: seq<Entry>, ghost n0: nat,
                    ghost sizes: Sizes, ghost fixups: Fixups, ghost from: nat, ghost to: nat)
    returns (ok: bool)
    requires Setting(img, step, all, sizes, fixups, from, to) && Loads(step, MoverOf(imageVa, base))
    requires from <= p && p + 8 + 2 * count <= to
    requires n0 + count <= |all| && forall i :: 0 <= i < count ==> all[n0 + i] == fixups(p, i)
    requires Going(image[..], img, step, all, n0)
    modifies image
    ensures ok <==> Known(all[n0..n0 + count])
    ensures ok ==> Going(image[..], img, step, all, n0 + count)
  {
    var i: nat := 0;
    while i < count
      invariant i <= count && forall k :: n0 <= k < n0 + i ==> !all[k].Unknown?
      invariant Going(image[..], img, step, all, n0 + i)
    {
      ok := FixupOne(image, p, i, imageVa, base, img, step, all, n0 + i, sizes, fixups, from, to);
      if !ok {
        assert all[n0..n0 + count][i] == all[n0 + i];
        return;
      }
      i := i + 1;
    }
    ok := true;
  }

  /** SizeOfBlock of the block at p. */
  method ReadSize(image: array<Byte>, p: nat, ghost img: seq<Byte>, ghost step: Step, ghost all: seq<Entry>,
                  ghost n: nat, ghost sizes: Sizes, ghost fixups: Fixups, ghost from: nat, ghost to: nat)
    returns (size: U32)
    requires Setting(img, step, all, sizes, fixups, from, to) && Going(image[..], img, step, all, n)
    requires from <= p && p + 8 <= to
    ensures size == sizes(p)
  {
    StillReads(image[..], img, step, all, n, sizes, fixups, from, to);
    size := U32At(image[..], p + 4);
  }

  lemma {:induction false} KnownSplit(all: seq<Entry>, n: nat, m: nat)
    requires n <= m <= |all|
    ensures Known(all[n..]) <==> Known(all[n..m]) && Known(all[m..])
  {
    if Known(all[n..]) {
      assert forall i :: 0 <= i < m - n ==> all[n..m][i] == all[n..][i];
      assert forall i :: 0 <= i < |all| - m ==> all[m..][i] == all[n..][m - n + i];
    } else {
      assert forall i :: 0 <= i < |all| - n ==>
          all[n..][i] == if i < m - n then all[n..m][i] else all[m..][i - (m - n)];
    }
  }

  /** With the block at q next, n entries are behind and the rest of the table lies ahead. */
  ghost predicate Ahead(sizes: Sizes, fixups: Fixups, length: nat, q: nat, all: seq<Entry>, n: nat, to: nat) {
    && TableAt(sizes, length, q) && TableEnd(sizes, length, q) == to
    && n <= |all| && Entries(sizes, fixups, length, q) == all[n..]
    && (Known(all) <==> Known(all[n..]))
  }

  lemma {:induction false} NextBlock(sizes: Sizes, fixups: Fixups, length: nat, q: nat, all: seq<Entry>, n: nat,
                                     to: nat, size: nat, c: nat)
    requires Ahead(sizes, fixups, length, q, all, n, to) && size == sizes(q) != 0 && c == Count(size)
    ensures 8 + 2 * c <= size && q + size + 8 <= to <= length && n + c <= |all|
    ensures forall i :: 0 <= i < c ==> all[n + i] == fixups(q, i)
    ensures !Known(all[n..n + c]) ==> !Known(all)
    ensures Known(all[n..n + c]) ==> Ahead(sizes, fixups, length, q + size, all, n + c, to)
  {
    var es, rest := BlockEntries(fixups, q, c), Entries(sizes, fixups, length, q + size);
    assert all[n..] == es + rest;
    assert forall i :: 0 <= i < c ==> all[n + i] == all[n..][i];
    assert all[n + c..] == all[n..][c..] == rest;
    KnownSplit(all, n, n + c);
  }

  /** The block at q, whose size has been read. */
  method FixupNext(image: array<Byte>, q: nat, size: nat, imageVa: U64, base: U64,
                   ghost img: seq<Byte>, ghost step: Step, ghost all: seq<Entry>, ghost n: nat,
                   ghost sizes: Sizes, ghost fixups: Fixups, ghost from: nat, ghost to: nat)
    returns (ok: bool)
    requires Setting(img, step, all, sizes, fixups, from, to) && Loads(step, MoverOf(imageVa, base)) && from <= q
    requires Ahead(sizes, fixups, |img|, q, all, n, to) && size == sizes(q) != 0
    requires Going(image[..], img, step, all, n)
    modifies image
    ensures q + size + 8 <= to <= |img|
    ensures !ok ==> !Known(all)
    ensures ok ==> Going(image[..], img, step, all, n + Count(size))
    ensures ok ==> Ahead(sizes, fixups, |img|, q + size, all, n + Count(size), to)
  {
    var count := Count(size);
    NextBlock(sizes, fixups, |img|, q, all, n, to, size, count);
    ok := FixupBlock(image, q, count, imageVa, base, img, step, all, n, sizes, fixups, from, to);
  }

  method FixupBlocks(image: array<Byte>, rva: nat, imageVa: U64, base: U64,
                     ghost img: seq<Byte>, ghost step: Step, ghost all: seq<Entry>,
                     ghost sizes: Sizes, ghost fixups: Fixups, ghost to: nat)
    returns (ok: bool)
    requires image[..] == img && Setting(img, step, all, sizes, fixups, rva, to) && Loads(step, MoverOf(imageVa, base))
    requires Ahead(sizes, fixups, |img|, rva, all, 0, to)
    modifies image
    ensures ok <==> Known(all)
    ensures ok ==> image[..] == Fold(step, img, all, |all|)
  {
    ghost var n: nat := 0;
    var block: nat := rva;
    var blockSize := ReadSize(image, block, img, step, all, n, sizes, fixups, rva, to);
    while blockSize != 0
      // written as an equivalence to keep the predicate folded
      invariant rva <= block && blockSize == sizes(block) && (Ahead(sizes, fixups, |img|, block, all, n, to) <==> true)
      invariant Going(image[..], img, step, all, n)
      decreases |img| - block
    {
      ok := FixupNext(image, block, blockSize, imageVa, base, img, step, all, n, sizes, fixups, rva, to);
      if !ok {
        return;
      }
      n := n + Count(blockSize);
      block := block + blockSize;
      blockSize := ReadSize(image, block, img, step, all, n, sizes, fixups, rva, to);
    }
    assert all[n..] == [];
    ok := true;
  }

  /** A table that can be applied: its targets lie in the image and leave the table alone. */
  predicate Applicable(img: seq<Byte>, p: nat) {
    && TableAt(SizesOf(img), |img|, p)
    && Inside(|img|, TableEntries(img, p))
    && Avoids(TableEntries(img, p), p, TableEnd(SizesOf(img), |img|, p))
  }

  function TableEntries(img: seq<Byte>, p: nat): seq<Entry>
    requires TableAt(SizesOf(img), |img|, p)
  {
    Entries(SizesOf(img), FixupsOf(img), |img|, p)
  }

  lemma {:induction false} StartOf(img: seq<Byte>, p: nat, imageVa: U64, base: U64)
    requires Applicable(img, p)
    ensures Setting(img, ShiftBy(imageVa - base), TableEntries(img, p), SizesOf(img), FixupsOf(img), p,
                    TableEnd(SizesOf(img), |img|, p))
    ensures Ahead(SizesOf(img), FixupsOf(img), |img|, p, TableEntries(img, p), 0, TableEnd(SizesOf(img), |img|, p))
  {
    ShiftIsLocal(imageVa - base);
    OwnReaders(img, p, TableEnd(SizesOf(img), |img|, p));
    assert TableEntries(img, p)[0..] == TableEntries(img, p);
  }

  /** fixup_reloc: blocks until one of size zero; an unknown type stops with an error. */
  method FixupReloc(image: array<Byte>, imageVa: U64, base: U64, rva: U32, size: U32) returns (ok: bool)
    requires size != 0 ==> Applicable(image[..], rva)
    modifies image
    ensures ok <==> size == 0 || Known(TableEntries(old(image[..]), rva))
    ensures ok ==> image[..] == if size == 0 then old(image[..])
                                else ShiftAll(old(image[..]), TableEntries(old(image[..]), rva), imageVa - base)
  {
    if size == 0 {
      return true;
    }
    ghost var img := image[..];
    StartOf(img, rva, imageVa, base);
    ShiftLoads(imageVa, base);
    ok := FixupBlocks(image, rva, imageVa, base, img, ShiftBy(imageVa - base), TableEntries(img, rva),
                      SizesOf(img), FixupsOf(img), TableEnd(SizesOf(img), |img|, rva));
  }

  // ----- exactness and inverse

  /** The word an entry rewrites. */
  function WordAt(img: seq<Byte>, e: Entry): nat
    requires Fits(|img|, e)
  {
    Value(img[Target(e)..Target(e) + Width(e)])
  }

  lemma {:induction false} ShiftOwnWord(img: seq<Byte>, e: Entry, delta: int)
    requires Fits(|img|, e)
    ensures WordAt(Shift(img, e, delta), e) == (WordAt(img, e) + delta) % Power256(Width(e))
  {
    var at, w := Target(e), Width(e);
    var v := Value(img[at..at + w]) + delta;
    assert Replace(img, at, Encode(v, w))[at..at + w] == Encode(v, w);
    ValueEncode(v, w);
  }

  lemma {:induction false} OtherWord(step: Step, img: seq<Byte>, e: Entry, f: Entry)
    requires Local(step) && Fits(|img|, f) && Separate(e, f)
    ensures |step(img, e)| == |img| && WordAt(step(img, e), f) == WordAt(img, f)
  {
    var r := step(img, e);
    assert r[Target(f)..Target(f) + Width(f)] == img[Target(f)..Target(f) + Width(f)];
  }

  lemma {:induction false} WordUntouched(step: Step, img: seq<Byte>, es: seq<Entry>, n: nat, f: Entry)
    requires Local(step) && n <= |es| && Fits(|img|, f) && forall i :: 0 <= i < n ==> Separate(es[i], f)
    ensures |Fold(step, img, es, n)| == |img| && WordAt(Fold(step, img, es, n), f) == WordAt(img, f)
  {
    if n > 0 {
      WordUntouched(step, img, es, n - 1, f);
      OtherWord(step, Fold(step, img, es, n - 1), es[n - 1], f);
    }
  }

  /** A word that one step rewrites, and whose bytes every other step leaves, ends up as that step makes it. */
  lemma {:induction false} OneRewrite(step: Step, img: seq<Byte>, es: seq<Entry>, n: nat, i: nat, word: nat)
    requires Local(step) && i < n <= |es| && Inside(|img|, es) && Disjoint(es)
    requires forall s: seq<Byte> {:trigger step(s, es[i])} ::
               |s| == |img| && WordAt(s, es[i]) == WordAt(img, es[i]) ==>
                 |step(s, es[i])| == |img| && WordAt(step(s, es[i]), es[i]) == word
    ensures |Fold(step, img, es, n)| == |img| && WordAt(Fold(step, img, es, n), es[i]) == word
  {
    var before := Fold(step, img, es, n - 1);
    if i == n - 1 {
      WordUntouched(step, img, es, n - 1, es[i]);
    } else {
      OneRewrite(step, img, es, n - 1, i, word);
      assert Separate(es[i], es[n - 1]);
      OtherWord(step, before, es[n - 1], es[i]);
    }
  }

  /** Each word after the whole run. */
  lemma {:induction false} WordMoves(img: seq<Byte>, es: seq<Entry>, delta: int, i: nat)
    requires Inside(|img|, es) && Disjoint(es) && i < |es|
    ensures |ShiftAll(img, es, delta)| == |img|
    ensures WordAt(ShiftAll(img, es, delta), es[i]) == (WordAt(img, es[i]) + delta) % Power256(Width(es[i]))
  {
    ShiftIsLocal(delta);
    var word := (WordAt(img, es[i]) + delta) % Power256(Width(es[i]));
    forall s: seq<Byte> | |s| == |img| && WordAt(s, es[i]) == WordAt(img, es[i])
      ensures WordAt(ShiftBy(delta)(s, es[i]), es[i]) == word
    {
      ShiftOwnWord(s, es[i], delta);
    }
    OneRewrite(ShiftBy(delta), img, es, |es|, i, word);
  }

  lemma {:induction false} ByteStays(img: seq<Byte>, es: seq<Entry>, delta: int, a: nat)
    requires a < |img| && forall i :: 0 <= i < |es| ==> !Covers(es[i], a)
    ensures |ShiftAll(img, es, delta)| == |img| && ShiftAll(img, es, delta)[a] == img[a]
  {
    ShiftIsLocal(delta);
    OthersStay(ShiftBy(delta), img, es, |es|);
  }

  lemma {:induction false} LengthStays(img: seq<Byte>, es: seq<Entry>, delta: int)
    ensures |ShiftAll(img, es, delta)| == |img|
  {
    ShiftIsLocal(delta);
    OthersStay(ShiftBy(delta), img, es, |es|);
  }

  /**
   * Relocation is exact: with disjoint targets each slot moves by the load distance modulo its width, whatever the
   * order, and no other byte changes.
   */
  lemma {:induction false} RelocationExact(img: seq<Byte>, es: seq<Entry>, delta: int)
    requires Inside(|img|, es) && Disjoint(es)
    ensures |ShiftAll(img, es, delta)| == |img|
    ensures forall i :: 0 <= i < |es| ==>
              WordAt(ShiftAll(img, es, delta), es[i]) == (WordAt(img, es[i]) + delta) % Power256(Width(es[i]))
    ensures forall a :: 0 <= a < |img| && (forall i :: 0 <= i < |es| ==> !Covers(es[i], a)) ==>
              ShiftAll(img, es, delta)[a] == img[a]
  {
    LengthStays(img, es, delta);
    forall i | 0 <= i < |es|
      ensures WordAt(ShiftAll(img, es, delta), es[i]) == (WordAt(img, es[i]) + delta) % Power256(Width(es[i]))
    {
      WordMoves(img, es, delta, i);
    }
    forall a | 0 <= a < |img| && (forall i :: 0 <= i < |es| ==> !Covers(es[i], a))
      ensures ShiftAll(img, es, delta)[a] == img[a]
    {
      ByteStays(img, es, delta, a);
    }
  }

  lemma {:induction false} ModInverse(v: nat, delta: int, m: nat)
    requires v < m
    ensures ((v + delta) % m - delta) % m == v
  {
    var q, r := (v + delta) / m, (v + delta) % m;
    assert r - delta == m * (-q) + v;
    RemainderIs(r - delta, m, -q, v);
  }

  lemma {:induction false} SameBytes(x: seq<Byte>, y: seq<Byte>, e: Entry)
    requires |x| == |y| && Fits(|x|, e) && WordAt(x, e) == WordAt(y, e)
    ensures forall a :: Covers(e, a) ==> x[a] == y[a]
  {
    var at, end := Target(e), Target(e) + Width(e);
    var s, t := x[at..end], y[at..end];
    ValueInjective(s, t);
    assert forall a :: at <= a < end ==> s[a - at] == x[a] && t[a - at] == y[a];
  }

  /** There and back, each word is itself again. */
  lemma {:induction false} WordReturns(img: seq<Byte>, es: seq<Entry>, there: seq<Byte>, back: seq<Byte>, delta: int,
                                       i: nat)
    requires Inside(|img|, es) && Disjoint(es) && i < |es|
    requires there == ShiftAll(img, es, delta) && back == ShiftAll(there, es, -delta) && |there| == |img|
    ensures |back| == |img| && WordAt(back, es[i]) == WordAt(img, es[i])
  {
    WordMoves(img, es, delta, i);
    WordMoves(there, es, -delta, i);
    ValueBound(img[Target(es[i])..Target(es[i]) + Width(es[i])]);
    ModInverse(WordAt(img, es[i]), delta, Power256(Width(es[i])));
  }

  /** Relocating back restores the image. */
  lemma {:induction false} RelocationInverts(img: seq<Byte>, es: seq<Entry>, delta: int)
    requires Inside(|img|, es) && Disjoint(es)
    ensures ShiftAll(ShiftAll(img, es, delta), es, -delta) == img
  {
    var there := ShiftAll(img, es, delta);
    var back := ShiftAll(there, es, -delta);
    LengthStays(img, es, delta);
    LengthStays(there, es, -delta);
    forall a | 0 <= a < |img| ensures back[a] == img[a] {
      if i :| 0 <= i < |es| && Covers(es[i], a) {
        WordReturns(img, es, there, back, delta, i);
        SameBytes(back, img, es[i]);
      } else {
        ByteStays(img, es, delta, a);
        ByteStays(there, es, -delta, a);
      }
    }
  }

  /** Two readers that agree on the table find the same table. */
  lemma {:induction false} SameTable(s: Sizes, f: Fixups, t: Sizes, g: Fixups, length: nat, p: nat, to: nat)
    requires TableAt(s, length, p) && to == TableEnd(s, length, p)
    requires forall q: nat :: p <= q && q + 8 <= to ==> s(q) == t(q)
    requires forall q: nat, i: nat :: p <= q && q + 10 + 2 * i <= to ==> f(q, i) == g(q, i)
    ensures TableAt(t, length, p) && TableEnd(t, length, p) == to
            && Entries(t, g, length, p) == Entries(s, f, length, p)
    decreases length - p
  {
    assert s(p) == t(p);
    if s(p) != 0 {
      SameTable(s, f, t, g, length, p + s(p), to);
      assert BlockEntries(f, p, Count(s(p))) == BlockEntries(g, p, Count(s(p)));
    }
  }

  /** A table out of reach of its own targets is still the same table after relocation. */
  lemma {:induction false} TableSurvives(img: seq<Byte>, r: seq<Byte>, p: nat, to: nat)
    requires |r| == |img| && TableAt(SizesOf(img), |img|, p) && to == TableEnd(SizesOf(img), |img|, p)
             && r[p..to] == img[p..to]
    ensures TableAt(SizesOf(r), |r|, p) && TableEnd(SizesOf(r), |r|, p) == to
            && TableEntries(r, p) == TableEntries(img, p)
  {
    forall q: nat | p <= q && q + 8 <= to ensures SizesOf(img)(q) == SizesOf(r)(q) {
      SameWords(img, r, p, to, q + 4);
    }
    forall q: nat, i: nat | p <= q && q + 10 + 2 * i <= to ensures FixupsOf(img)(q, i) == FixupsOf(r)(q, i) {
      SameEntry(img, r, p, to, q, i);
    }
    SameTable(SizesOf(img), FixupsOf(img), SizesOf(r), FixupsOf(r), |img|, p, to);
  }

  /** So the loader run again with the distance reversed would find the same entries and undo them all. */
  lemma {:induction false} RelocateTwice(img: seq<Byte>, p: nat, delta: int)
    requires Applicable(img, p) && Disjoint(TableEntries(img, p))
    ensures var there := ShiftAll(img, TableEntries(img, p), delta);
            Applicable(there, p) && ShiftAll(there, TableEntries(there, p), -delta) == img
  {
    var es := TableEntries(img, p);
    var there, to := ShiftAll(img, es, delta), TableEnd(SizesOf(img), |img|, p);
    ShiftIsLocal(delta);
    RegionStays(ShiftBy(delta), img, es, |es|, p, to);
    TableSurvives(img, there, p, to);
    RelocationInverts(img, es, delta);
  }
}
