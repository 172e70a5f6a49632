/** The loader's flat export table: registration, lookup and rollback (src/pe_loader.cpp:43-110). */
module ExportTable {
  import opened Wrappers

  type Address = nat
  type ImageId = nat

  /** dll and owner may be null in the source. */
  datatype PeExport = PeExport(dll: Option<string>, name: string, addr: Address, owner: Option<ImageId>)

  const MAX_EXPORTS: nat := 4096

  function Lower(c: char): char { if 'A' <= c <= 'Z' then c + 32 as char else c }

  /** strcasecmp(a, b) == 0. */
  predicate SameIgnoringCase(a: string, b: string) {
    |a| == |b| && forall i :: 0 <= i < |a| ==> Lower(a[i]) == Lower(b[i])
  }

  predicate InModule(e: PeExport, dll: string) { e.dll.Some? && SameIgnoringCase(e.dll.value, dll) }

  // ----- what queries answer

  function LastInModule(s: seq<PeExport>, name: string, dll: string): Option<Address> {
    if s == [] then None
    else
      var e := s[|s| - 1];
      if InModule(e, dll) && e.name == name then Some(e.addr) else LastInModule(s[..|s| - 1], name, dll)
  }

  function LastAnywhere(s: seq<PeExport>, name: string): Option<Address> {
    if s == [] then None
    else
      var e := s[|s| - 1];
      if e.name == name then Some(e.addr) else LastAnywhere(s[..|s| - 1], name)
  }

  /** The requested module first; the flat table for names nothing there registered. */
  function Resolve(s: seq<PeExport>, name: string, dll: Option<string>): Option<Address> {
    if dll.Some? && LastInModule(s, name, dll.value).Some? then LastInModule(s, name, dll.value)
    else LastAnywhere(s, name)
  }

  /** Position i holds the last export of that name, in the module if one is given. */
  predicate IsLast(s: seq<PeExport>, i: nat, name: string, dll: Option<string>) {
    && i < |s| && Matches(s[i], name, dll)
    && forall j :: i < j < |s| ==> !Matches(s[j], name, dll)
  }

  predicate Matches(e: PeExport, name: string, dll: Option<string>) {
    e.name == name && (dll.Some? ==> InModule(e, dll.value))
  }

  lemma {:induction false} LastInModuleIs(s: seq<PeExport>, i: nat, name: string, dll: string)
    requires IsLast(s, i, name, Some(dll))
    ensures LastInModule(s, name, dll) == Some(s[i].addr)
    decreases |s|
  {
    var n := |s| - 1;
    if i < n {
      assert !Matches(s[n], name, Some(dll));
      assert s[..n][i] == s[i] && forall j :: i < j < n ==> s[..n][j] == s[j];
      LastInModuleIs(s[..n], i, name, dll);
    }
  }

  lemma {:induction false} LastAnywhereIs(s: seq<PeExport>, i: nat, name: string)
    requires IsLast(s, i, name, None)
    ensures LastAnywhere(s, name) == Some(s[i].addr)
    decreases |s|
  {
    var n := |s| - 1;
    if i < n {
      assert !Matches(s[n], name, None);
      assert s[..n][i] == s[i] && forall j :: i < j < n ==> s[..n][j] == s[j];
      LastAnywhereIs(s[..n], i, name);
    }
  }

  /** Precedence, position by position: a module's last match wins, whatever other modules registered since. */
  lemma {:induction false} ResolvePrefersModule(s: seq<PeExport>, name: string, dll: Option<string>, i: nat)
    requires IsLast(s, i, name, dll)
    ensures Resolve(s, name, dll) == Some(s[i].addr)
  {
    if dll.Some? {
      LastInModuleIs(s, i, name, dll.value);
    } else {
      LastAnywhereIs(s, i, name);
    }
  }

  lemma {:induction false} NoneInModule(s: seq<PeExport>, name: string, dll: string)
    requires forall i :: 0 <= i < |s| ==> !Matches(s[i], name, Some(dll))
    ensures LastInModule(s, name, dll).None?
  {
    if s != [] {
      assert !Matches(s[|s| - 1], name, Some(dll));
      NoneInModule(s[..|s| - 1], name, dll);
    }
  }

  lemma {:induction false} NoneAnywhere(s: seq<PeExport>, name: string)
    requires forall i :: 0 <= i < |s| ==> s[i].name != name
    ensures LastAnywhere(s, name).None?
  {
    if s != [] {
      NoneAnywhere(s[..|s| - 1], name);
    }
  }

  /** Otherwise the last match anywhere answers, and no match means no answer. */
  lemma {:induction false} ResolveFallsBack(s: seq<PeExport>, name: string, dll: string)
    requires forall i :: 0 <= i < |s| ==> !Matches(s[i], name, Some(dll))
    ensures Resolve(s, name, Some(dll)) == Resolve(s, name, None)
    ensures (forall i :: 0 <= i < |s| ==> s[i].name != name) ==> Resolve(s, name, None).None?
  {
    NoneInModule(s, name, dll);
    if forall i :: 0 <= i < |s| ==> s[i].name != name {
      NoneAnywhere(s, name);
    }
  }

  /** The entries of all owners but one, in order. */
  function Without(s: seq<PeExport>, image: ImageId): seq<PeExport> {
    if s == [] then []
    else
      var n := |s| - 1;
      if s[n].owner == Some(image) then Without(s[..n], image) else Without(s[..n], image) + [s[n]]
  }

  class Table {
    const list: array<PeExport>
    var count: nat

    ghost predicate Valid()
      reads this, list
    {
      list.Length == MAX_EXPORTS && count <= MAX_EXPORTS
    }

    ghost function Contents(): seq<PeExport>
      requires Valid()
      reads this, list
    {
      list[..count]
    }

    constructor ()
      ensures Valid() && Contents() == [] && fresh(list)
    {
      list := new PeExport[MAX_EXPORTS](_ => PeExport(None, "", 0, None));
      count := 0;
    }

    /** register_function: a full table drops the registration. */
    method Register(dll: Option<string>, name: string, addr: Address, owner: Option<ImageId>)
      requires Valid()
      modifies this`count, list
      ensures Valid()
      ensures Contents() == Registered(old(Contents()), PeExport(dll, name, addr, owner))
    {
      if count >= MAX_EXPORTS {
        return;
      }
      list[count] := PeExport(dll, name, addr, owner);
      count := count + 1;
    }

    /** get_export: two backward scans. */
    method GetExport(name: string, dll: Option<string>) returns (r: Option<Address>)
      requires Valid()
      ensures r == Resolve(Contents(), name, dll)
    {
      ghost var s := list[..count];
      assert s[..count] == s;
      if dll.Some? {
        var i: int := count - 1;
        while i >= 0
          invariant -1 <= i < count
          invariant LastInModule(s, name, dll.value) == LastInModule(s[..i + 1], name, dll.value)
        {
          if InModule(list[i], dll.value) && list[i].name == name {
            return Some(list[i].addr);
          }
          assert s[..i + 1][..i] == s[..i];
          i := i - 1;
        }
      }
      var i: int := count - 1;
      while i >= 0
        invariant -1 <= i < count
        invariant LastAnywhere(s, name) == LastAnywhere(s[..i + 1], name)
      {
        if list[i].name == name {
          return Some(list[i].addr);
        }
        assert s[..i + 1][..i] == s[..i];
        i := i - 1;
      }
      r := None;
    }

    /** pe_discard_image_exports: compaction in place. */
    method DiscardImage(image: ImageId)
      requires Valid()
      modifies this`count, list
      ensures Valid() && Contents() == Without(old(Contents()), image)
    {
      ghost var s := list[..count];
      var kept: nat := 0;
      var i: nat := 0;
      while i < count
        invariant kept <= i <= count && list.Length == MAX_EXPORTS && count == old(count)
        invariant list[..kept] == Without(s[..i], image)
        invariant list[i..count] == s[i..]
      {
        assert s[..i + 1][..i] == s[..i] && list[i] == s[i];
        assert list[i + 1..count] == s[i + 1..];
        if list[i].owner != Some(image) {
          ghost var before := list[..kept];
          list[kept] := list[i];
          kept := kept + 1;
          assert list[..kept] == before + [s[i]];
        }
        i := i + 1;
      }
      assert s[..i] == s;
      count := kept;
    }
  }

  // ----- rollback

  function Registered(s: seq<PeExport>, e: PeExport): seq<PeExport> { if |s| >= MAX_EXPORTS then s else s + [e] }

  /** What happens to the table while an image loads: registrations of any owner, and other images failing. */
  datatype Event = Register(e: PeExport) | Discard(image: ImageId)

  function After(s: seq<PeExport>, events: seq<Event>): seq<PeExport> {
    if events == [] then s
    else
      var before := After(s, events[..|events| - 1]);
      match events[|events| - 1]
      case Register(e) => Registered(before, e)
      case Discard(image) => Without(before, image)
  }

  /** The same events had the image never existed. */
  function Omitting(events: seq<Event>, image: ImageId): seq<Event> {
    if events == [] then []
    else
      var n := |events| - 1;
      var own := match events[n] case Register(e) => e.owner == Some(image) case Discard(other) => other == image;
      if own then Omitting(events[..n], image) else Omitting(events[..n], image) + [events[n]]
  }

  /** No registration meets a full table. */
  predicate NeverFull(s: seq<PeExport>, events: seq<Event>) {
    forall k :: 0 <= k < |events| && events[k].Register? ==> |After(s, events[..k])| < MAX_EXPORTS
  }

  lemma {:induction false} WithoutShrinks(s: seq<PeExport>, image: ImageId)
    ensures |Without(s, image)| <= |s|
    ensures forall e :: e in Without(s, image) ==> e in s && e.owner != Some(image)
  {
    if s != [] {
      WithoutShrinks(s[..|s| - 1], image);
    }
  }

  lemma {:induction false} WithoutNone(s: seq<PeExport>, image: ImageId)
    requires forall e :: e in s ==> e.owner != Some(image)
    ensures Without(s, image) == s
  {
    if s != [] {
      WithoutNone(s[..|s| - 1], image);
    }
  }

  lemma {:induction false} WithoutAppend(s: seq<PeExport>, e: PeExport, image: ImageId)
    ensures Without(s + [e], image) == if e.owner == Some(image) then Without(s, image) else Without(s, image) + [e]
  {
    assert (s + [e])[..|s|] == s;
  }

  lemma {:induction false} WithoutCommutes(s: seq<PeExport>, a: ImageId, b: ImageId)
    ensures Without(Without(s, a), b) == Without(Without(s, b), a)
  {
    if s != [] {
      var n := |s| - 1;
      WithoutCommutes(s[..n], a, b);
      WithoutAppend(Without(s[..n], a), s[n], b);
      WithoutAppend(Without(s[..n], b), s[n], a);
    }
  }

  lemma {:induction false} WithoutTwice(s: seq<PeExport>, a: ImageId)
    ensures Without(Without(s, a), a) == Without(s, a)
  {
    WithoutShrinks(s, a);
    WithoutNone(Without(s, a), a);
  }

  /**
   * Rolling back a failed load while the table has room: discarding the image's exports leaves the very table that the
   * other events alone would have made.
   */
  lemma {:induction false} RollbackWithRoom(s: seq<PeExport>, events: seq<Event>, image: ImageId)
    requires NeverFull(s, events) && forall e :: e in s ==> e.owner != Some(image)
    ensures Without(After(s, events), image) == After(s, Omitting(events, image))
    decreases |events|
  {
    if events == [] {
      WithoutNone(s, image);
    } else {
      var n := |events| - 1;
      var prior, before := events[..n], After(s, events[..n]);
      assert forall k :: 0 <= k < n ==> prior[..k] == events[..k];
      RollbackWithRoom(s, prior, image);
      var omitted := Omitting(prior, image);
      WithoutShrinks(before, image);
      assert (omitted + [events[n]])[..|omitted|] == omitted;
      match events[n]
      case Register(e) =>
        assert |After(s, events[..n])| < MAX_EXPORTS;
        WithoutAppend(before, e, image);
      case Discard(other) =>
        WithoutCommutes(before, other, image);
        WithoutTwice(before, image);
    }
  }

  // ----- and when it does not: with and without the image, each registration has its own fate

  /** Which registrations find room. */
  type Fate = nat -> bool

  function FateWith(s: seq<PeExport>, events: seq<Event>): Fate {
    (k: nat) => k <= |events| && |After(s, events[..k])| < MAX_EXPORTS
  }

  function FateWithout(s: seq<PeExport>, events: seq<Event>, image: ImageId): Fate {
    (k: nat) => k <= |events| && |After(s, Omitting(events[..k], image))| < MAX_EXPORTS
  }

  /** The other owners' part of the table after n events. */
  function Kept(s: seq<PeExport>, events: seq<Event>, n: nat, fate: Fate, image: ImageId): seq<PeExport>
    requires n <= |events|
  {
    if n == 0 then s
    else
      var prior := Kept(s, events, n - 1, fate, image);
      match events[n - 1]
      case Register(e) => if fate(n - 1) && e.owner != Some(image) then prior + [e] else prior
      case Discard(other) => Without(prior, other)
  }

  lemma {:induction false} KeptWith(s: seq<PeExport>, events: seq<Event>, n: nat, image: ImageId)
    requires n <= |events| && forall e :: e in s ==> e.owner != Some(image)
    ensures Without(After(s, events[..n]), image) == Kept(s, events, n, FateWith(s, events), image)
  {
    if n == 0 {
      WithoutNone(s, image);
    } else {
      KeptWith(s, events, n - 1, image);
      var before := After(s, events[..n - 1]);
      assert events[..n][..n - 1] == events[..n - 1];
      match events[n - 1]
      case Register(e) => WithoutAppend(before, e, image);
      case Discard(other) => WithoutCommutes(before, other, image);
    }
  }

  lemma {:induction false} KeptNone(s: seq<PeExport>, events: seq<Event>, n: nat, fate: Fate, image: ImageId)
    requires n <= |events| && forall e :: e in s ==> e.owner != Some(image)
    ensures forall e :: e in Kept(s, events, n, fate, image) ==> e.owner != Some(image)
  {
    if n > 0 {
      KeptNone(s, events, n - 1, fate, image);
      if events[n - 1].Discard? {
        WithoutShrinks(Kept(s, events, n - 1, fate, image), events[n - 1].image);
      }
    }
  }

  lemma {:induction false} KeptWithout(s: seq<PeExport>, events: seq<Event>, n: nat, image: ImageId)
    requires n <= |events| && forall e :: e in s ==> e.owner != Some(image)
    ensures After(s, Omitting(events[..n], image)) == Kept(s, events, n, FateWithout(s, events, image), image)
  {
    if n > 0 {
      var fate := FateWithout(s, events, image);
      KeptWithout(s, events, n - 1, image);
      assert events[..n][..n - 1] == events[..n - 1];
      var prior := Omitting(events[..n - 1], image);
      assert (prior + [events[n - 1]])[..|prior|] == prior;
      if events[n - 1] == Discard(image) {
        KeptNone(s, events, n - 1, fate, image);
        WithoutNone(Kept(s, events, n - 1, fate, image), image);
      }
    }
  }

  predicate OwnedIn(e: PeExport, owners: set<ImageId>) { e.owner.Some? && e.owner.value in owners }

  /**
   * Event k registers an export of another owner that none of the events up to n, nor these owners' discard, removes.
   */
  predicate Outlasts(events: seq<Event>, k: nat, n: nat, image: ImageId, owners: set<ImageId>)
    requires k < n <= |events|
  {
    && events[k].Register? && events[k].e.owner != Some(image) && !OwnedIn(events[k].e, owners)
    && forall j :: k < j < n && events[j].Discard? ==> events[k].e.owner != Some(events[j].image)
  }

  predicate SameFates(events: seq<Event>, n: nat, p: Fate, q: Fate, image: ImageId, owners: set<ImageId>)
    requires n <= |events|
  {
    forall k: nat :: k < n && Outlasts(events, k, n, image, owners) ==> p(k) == q(k)
  }

  /** No export is registered twice. */
  predicate DistinctEvents(s: seq<PeExport>, events: seq<Event>, n: nat)
    requires n <= |events|
  {
    && (forall k :: 0 <= k < n && events[k].Register? ==> events[k].e !in s)
    && (forall i, k :: 0 <= i < k < n && events[i].Register? ==> events[i] != events[k])
  }

  function WithoutAll(s: seq<PeExport>, owners: set<ImageId>): seq<PeExport> {
    if s == [] then []
    else
      var n := |s| - 1;
      if OwnedIn(s[n], owners) then WithoutAll(s[..n], owners) else WithoutAll(s[..n], owners) + [s[n]]
  }

  lemma {:induction false} WithoutAllAppend(s: seq<PeExport>, e: PeExport, owners: set<ImageId>)
    ensures WithoutAll(s + [e], owners) == if OwnedIn(e, owners) then WithoutAll(s, owners)
            else WithoutAll(s, owners) + [e]
  {
    assert (s + [e])[..|s|] == s;
  }

  lemma {:induction false} WithoutAllOne(s: seq<PeExport>, other: ImageId, owners: set<ImageId>)
    ensures WithoutAll(Without(s, other), owners) == WithoutAll(s, owners + {other})
  {
    if s != [] {
      var n := |s| - 1;
      WithoutAllOne(s[..n], other, owners);
      WithoutAllAppend(Without(s[..n], other), s[n], owners);
    }
  }

  lemma {:induction false} WithoutAllIn(s: seq<PeExport>, owners: set<ImageId>)
    ensures forall e :: e in WithoutAll(s, owners) ==> e in s
    ensures owners == {} ==> WithoutAll(s, owners) == s
  {
    if s != [] {
      WithoutAllIn(s[..|s| - 1], owners);
      assert s == s[..|s| - 1] + [s[|s| - 1]];
    }
  }

  lemma {:induction false} KeptFrom(s: seq<PeExport>, events: seq<Event>, n: nat, fate: Fate, image: ImageId,
                                    e: PeExport)
    requires n <= |events| && e in Kept(s, events, n, fate, image)
    ensures e in s || exists k :: 0 <= k < n && events[k] == Register(e)
  {
    if n > 0 {
      var prior := Kept(s, events, n - 1, fate, image);
      if events[n - 1].Discard? {
        WithoutShrinks(prior, events[n - 1].image);
      }
      if e in prior {
        KeptFrom(s, events, n - 1, fate, image, e);
      } else {
        assert events[n - 1] == Register(e);
      }
    }
  }

  /** One more registration, on lists that do not hold it yet. */
  lemma {:induction false} AppendEither(a: seq<PeExport>, b: seq<PeExport>, e: PeExport, p: bool, q: bool)
    ensures var x, y := if p then a + [e] else a, if q then b + [e] else b;
            && (a == b && p == q ==> x == y)
            && (e !in a && e !in b ==> (x == y <==> a == b && p == q))
  {
    if e !in a && e !in b {
      if p && q && a + [e] == b + [e] {
        assert (a + [e])[..|a|] == a && (b + [e])[..|b|] == b;
      }
      if p && !q {
        assert e in a + [e];
      }
      if q && !p {
        assert e in b + [e];
      }
    }
  }

  lemma {:induction false} OutlastsMore(events: seq<Event>, n: nat, p: Fate, q: Fate, image: ImageId,
                                        owners: set<ImageId>)
    requires 0 < n <= |events|
    ensures SameFates(events, n, p, q, image, owners) <==>
            match events[n - 1]
            case Register(e) =>
              && SameFates(events, n - 1, p, q, image, owners)
              && (e.owner != Some(image) && !OwnedIn(e, owners) ==> p(n - 1) == q(n - 1))
            case Discard(other) => SameFates(events, n - 1, p, q, image, owners + {other})
  {
    forall k: nat | k < n - 1
      ensures Outlasts(events, k, n, image, owners) <==>
              Outlasts(events, k, n - 1, image,
                       if events[n - 1].Discard? then owners + {events[n - 1].image} else owners)
    {
    }
  }

  /** What KeptSame says, hiding how the lists are made. */
  predicate Decided(a: seq<PeExport>, b: seq<PeExport>, same: bool, distinct: bool) {
    (same ==> a == b) && (distinct && a == b ==> same)
  }

  lemma {:induction false} DecideOne(a: seq<PeExport>, b: seq<PeExport>, same: bool, distinct: bool, e: PeExport,
                                     p: bool, q: bool, fresher: bool, image: ImageId, owners: set<ImageId>)
    requires Decided(WithoutAll(a, owners), WithoutAll(b, owners), same, distinct) && (fresher ==> distinct)
    requires fresher ==> e !in WithoutAll(a, owners) && e !in WithoutAll(b, owners)
    ensures var others := e.owner != Some(image);
            Decided(WithoutAll(if p && others then a + [e] else a, owners),
                    WithoutAll(if q && others then b + [e] else b, owners),
                    same && (others && !OwnedIn(e, owners) ==> p == q), fresher)
  {
    WithoutAllAppend(a, e, owners);
    WithoutAllAppend(b, e, owners);
    AppendEither(WithoutAll(a, owners), WithoutAll(b, owners), e, p, q);
  }

  /**
   * The lists with two sets of fates are equal when the fates of what outlasts are, and only then without repetitions.
   */
  lemma {:induction false} KeptSame(s: seq<PeExport>, events: seq<Event>, n: nat, p: Fate, q: Fate, image: ImageId,
                                    owners: set<ImageId>)
    requires n <= |events|
    ensures Decided(WithoutAll(Kept(s, events, n, p, image), owners), WithoutAll(Kept(s, events, n, q, image), owners),
                    SameFates(events, n, p, q, image, owners), DistinctEvents(s, events, n))
  {
    if n > 0 {
      var a, b := Kept(s, events, n - 1, p, image), Kept(s, events, n - 1, q, image);
      OutlastsMore(events, n, p, q, image, owners);
      match events[n - 1]
      case Register(e) =>
        KeptSame(s, events, n - 1, p, q, image, owners);
        if DistinctEvents(s, events, n) {
          NotYetKept(s, events, n, p, image, owners);
          NotYetKept(s, events, n, q, image, owners);
        }
        DecideOne(a, b, SameFates(events, n - 1, p, q, image, owners), DistinctEvents(s, events, n - 1),
                  e, p(n - 1), q(n - 1), DistinctEvents(s, events, n), image, owners);
      case Discard(other) =>
        KeptSame(s, events, n - 1, p, q, image, owners + {other});
        WithoutAllOne(a, other, owners);
        WithoutAllOne(b, other, owners);
    }
  }

  lemma {:induction false} NotYetKept(s: seq<PeExport>, events: seq<Event>, n: nat, fate: Fate, image: ImageId,
                                      owners: set<ImageId>)
    requires 0 < n <= |events| && events[n - 1].Register? && DistinctEvents(s, events, n)
    ensures events[n - 1].e !in WithoutAll(Kept(s, events, n - 1, fate, image), owners)
  {
    var e, prior := events[n - 1].e, Kept(s, events, n - 1, fate, image);
    WithoutAllIn(prior, owners);
    if e in prior {
      KeptFrom(s, events, n - 1, fate, image, e);
    }
  }

  /**
   * With and without the image, every other owner's registration that outlasts the events meets the same kind of table.
   */
  predicate NoneLost(s: seq<PeExport>, events: seq<Event>, image: ImageId) {
    SameFates(events, |events|, FateWith(s, events), FateWithout(s, events, image), image, {})
  }

  /**
   * Rolling back a failed load: discarding the image's exports leaves the very table that the other events alone would
   * have made when the full table turned away the same lasting registrations of others in both histories; and, if no
   * export is registered twice, only then.
   */
  lemma {:induction false} RollbackExact(s: seq<PeExport>, events: seq<Event>, image: ImageId)
    requires forall e :: e in s ==> e.owner != Some(image)
    ensures NoneLost(s, events, image) ==> Without(After(s, events), image) == After(s, Omitting(events, image))
    ensures DistinctEvents(s, events, |events|) ==>
              (Without(After(s, events), image) == After(s, Omitting(events, image)) <==> NoneLost(s, events, image))
  {
    var n := |events|;
    var p, q := FateWith(s, events), FateWithout(s, events, image);
    assert events[..n] == events;
    KeptWith(s, events, n, image);
    KeptWithout(s, events, n, image);
    KeptSame(s, events, n, p, q, image, {});
    WithoutAllIn(Kept(s, events, n, p, image), {});
    WithoutAllIn(Kept(s, events, n, q, image), {});
  }

  /** A table that never fills up loses nothing. */
  lemma {:induction false} RoomSuffices(s: seq<PeExport>, events: seq<Event>, image: ImageId)
    requires NeverFull(s, events) && forall e :: e in s ==> e.owner != Some(image)
    ensures NoneLost(s, events, image)
  {
    forall k: nat | k < |events| && events[k].Register?
      ensures FateWith(s, events)(k) == FateWithout(s, events, image)(k)
    {
      var prior := events[..k];
      assert forall j :: 0 <= j < k ==> prior[..j] == events[..j];
      RollbackWithRoom(s, prior, image);
      WithoutShrinks(After(s, prior), image);
    }
  }

  /** Then every query answers as if the image had never registered anything. */
  lemma {:induction false} RollbackAnswers(s: seq<PeExport>, events: seq<Event>, image: ImageId, name: string,
                                           dll: Option<string>)
    requires NoneLost(s, events, image) && forall e :: e in s ==> e.owner != Some(image)
    ensures Resolve(Without(After(s, events), image), name, dll)
            == Resolve(After(s, Omitting(events, image)), name, dll)
  {
    RollbackExact(s, events, image);
  }

  /** One entry short of full: the image takes the last place, and what another registers next is lost for good. */
  lemma {:induction false} RollbackLoses(s: seq<PeExport>, own: PeExport, other: PeExport, image: ImageId)
    requires |s| == MAX_EXPORTS - 1 && (forall e :: e in s ==> e.owner != Some(image))
    requires own.owner == Some(image) && other.owner != Some(image)
    ensures var events := [Register(own), Register(other)];
            && Without(After(s, events), image) == s && After(s, Omitting(events, image)) == s + [other]
  {
    var events := [Register(own), Register(other)];
    assert events[..1] == [Register(own)] && events[..1][..0] == [];
    assert [Register(other)][..0] == [];
    WithoutAppend(s, own, image);
    WithoutNone(s, image);
    assert After(s, [Register(own)]) == s + [own];
    assert After(s, events) == s + [own];
    assert Omitting([Register(own)], image) == [];
    assert Omitting(events, image) == [Register(other)];
  }

  // ----- where the table fills up

  function RegisterAll(s: seq<PeExport>, es: seq<PeExport>): seq<PeExport> {
    if es == [] then s else Registered(RegisterAll(s, es[..|es| - 1]), es[|es| - 1])
  }

  lemma {:induction false} RegisterAllIs(s: seq<PeExport>, es: seq<PeExport>, room: nat)
    requires |s| + room == MAX_EXPORTS
    ensures RegisterAll(s, es) == s + es[..if |es| < room then |es| else room]
    decreases |es|
  {
    if es != [] {
      var n := |es| - 1;
      RegisterAllIs(s, es[..n], room);
      if n < room {
        assert es[..n][..n] == es[..n] && es[..|es|] == es[..n] + [es[n]];
      } else {
        assert es[..n][..room] == es[..room];
      }
    }
  }

  lemma {:induction false} WithoutConcat(a: seq<PeExport>, b: seq<PeExport>, image: ImageId)
    ensures Without(a + b, image) == Without(a, image) + Without(b, image)
    decreases |b|
  {
    if b == [] {
      assert a + b == a;
    } else {
      var n := |b| - 1;
      assert (a + b)[..|a| + n] == a + b[..n];
      WithoutConcat(a, b[..n], image);
    }
  }

  lemma {:induction false} WithoutFull(s: seq<PeExport>, image: ImageId)
    ensures |Without(s, image)| == |s| <==> forall e :: e in s ==> e.owner != Some(image)
  {
    if s != [] {
      var n := |s| - 1;
      WithoutFull(s[..n], image);
      WithoutShrinks(s[..n], image);
      assert s == s[..n] + [s[n]];
    }
  }

  /**
   * The exact limit of the rollback, for plain registrations: with room for n of them, the table after the discard is
   * the one without the image just when none of the others' registrations was dropped, or none of the image's kept.
   */
  lemma {:induction false} RollbackIff(s: seq<PeExport>, es: seq<PeExport>, room: nat, image: ImageId)
    requires |s| + room == MAX_EXPORTS && forall e :: e in s ==> e.owner != Some(image)
    requires |es| > room
    ensures Without(RegisterAll(s, es), image) == RegisterAll(s, Without(es, image))
            <==>
            || (forall e :: e in es[room..] ==> e.owner == Some(image))
            || (forall e :: e in es[..room] ==> e.owner != Some(image))
  {
    var kept, dropped := es[..room], es[room..];
    var keptOthers, droppedOthers := Without(kept, image), Without(dropped, image);
    assert es == kept + dropped;
    WithoutConcat(kept, dropped, image);
    RegisterAllIs(s, es, room);
    RegisterAllIs(s, Without(es, image), room);
    WithoutConcat(s, kept, image);
    WithoutNone(s, image);
    WithoutFull(kept, image);
    WithoutShrinks(kept, image);
    WithoutEmpty(dropped, image);
    var others := keptOthers + droppedOthers;
    var n := if |others| < room then |others| else room;
    assert Without(RegisterAll(s, es), image) == s + keptOthers;
    assert RegisterAll(s, Without(es, image)) == s + others[..n];
    assert n >= |keptOthers|;
    if s + keptOthers == s + others[..n] {
      assert |keptOthers| == n;
    } else {
      assert others[..|keptOthers|] == keptOthers;
    }
  }

  lemma {:induction false} WithoutEmpty(s: seq<PeExport>, image: ImageId)
    ensures Without(s, image) == [] <==> forall e :: e in s ==> e.owner == Some(image)
  {
    if s != [] {
      var n := |s| - 1;
      WithoutEmpty(s[..n], image);
      assert s == s[..n] + [s[n]];
    }
  }
}
