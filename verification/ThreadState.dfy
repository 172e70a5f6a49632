/** One thread's attach state as a value, and what each loader call makes of it (src/pe_loader.cpp:236-407, 464-485). */
module ThreadState {
  import opened Wrappers

  const MAX_LOADED_IMAGES: nat := 32
  const MAX_TLS_SLOTS: nat := 1024

  /** tls is the index of an image with a TLS directory; entry says whether the image has an entry point. */
  datatype Image = Image(id: nat, tls: Option<nat>, entry: bool)

  datatype Reason = ProcessAttach | ThreadAttach | ThreadDetach | ProcessDetach

  /** Calls into the image, and its TLS block coming and going. */
  datatype Event = Alloc(image: Image) | Free(image: Image) | Callbacks(image: Image,
                         reason: Reason) | Entry(image: Image, reason: Reason)

  /** attached_images, local_storage, and everything that happened on the thread so far. */
  datatype Thread = Thread(attached: seq<Image>, slots: seq<nat>, log: seq<Event>)

  /** The address calloc returns for an image's TLS block, 0 when it fails. */
  type Allocation = Image -> nat

  datatype Loaded = Loaded(image: Image, disabled: bool)

  predicate NeedsAttachment(reason: Reason) { reason.ProcessAttach? || reason.ThreadAttach? }

  predicate ValidThread(th: Thread) { |th.slots| == MAX_TLS_SLOTS && |th.attached| <= MAX_LOADED_IMAGES }

  predicate Ranged(image: Image) { image.tls.Some? && image.tls.value < MAX_TLS_SLOTS }

  /** attach_image. */
  predicate CanAttach(th: Thread, image: Image) { image !in th.attached && |th.attached| != MAX_LOADED_IMAGES }

  /** Position of the first occurrence, or the length. */
  function IndexIn(s: seq<Image>, image: Image): (i: nat)
    ensures i <= |s| && (i < |s| ==> s[i] == image)
  {
    if s == [] || s[0] == image then 0 else 1 + IndexIn(s[1..], image)
  }

  /** detach_image: later entries move down. */
  function Removed(s: seq<Image>, image: Image): seq<Image> {
    var i := IndexIn(s, image);
    if i == |s| then s else s[..i] + s[i + 1..]
  }

  /** free and null a TLS slot, if it holds a block. */
  function Released(th: Thread, image: Image): (r: Thread)
    requires ValidThread(th)
    ensures ValidThread(r) && r.attached == th.attached
  {
    if Ranged(image) && th.slots[image.tls.value] != 0 then
      th.(slots := th.slots[image.tls.value := 0], log := th.log + [Free(image)])
    else th
  }

  function Logged(th: Thread, happens: bool, e: Event): (r: Thread)
    ensures r.attached == th.attached && r.slots == th.slots
  {
    if happens then th.(log := th.log + [e]) else th
  }

  /** The slot's block: allocated if there is none. */
  function WithBlock(th: Thread, image: Image, block: nat): (r: Thread)
    requires ValidThread(th) && Ranged(image)
    ensures ValidThread(r) && r.attached == th.attached
  {
    if th.slots[image.tls.value] != 0 then th
    else th.(slots := th.slots[image.tls.value := block], log := th.log + [Alloc(image)])
  }

  /** pe_initialize_tls_for_current_thread. */
  function Initialized(th: Thread, image: Image, reason: Reason, block: nat): (r: (Thread, bool))
    requires ValidThread(th)
    ensures ValidThread(r.0)
  {
    var attach := NeedsAttachment(reason) && image !in th.attached;
    if image.tls.None? then
      if !attach then (th, true)
      else if CanAttach(th, image) then (th.(attached := th.attached + [image]), true)
      else (th, false)
    else if !Ranged(image) then (th, false)
    else
      var created := th.slots[image.tls.value] == 0;
      if created && block == 0 then (th, false)
      else
        var own := WithBlock(th, image, block);
        if attach && !CanAttach(th, image) then (if created then Released(own, image) else own, false)
        else
          var done := if attach then own.(attached := own.attached + [image]) else own;
          (Logged(done, created && NeedsAttachment(reason), Callbacks(image, reason)), true)
  }

  /** One image of pe_notify_loaded_images(DLL_THREAD_ATTACH). */
  function AttachOne(th: Thread, x: Loaded, block: nat): (r: Thread)
    requires ValidThread(th)
    ensures ValidThread(r)
  {
    if x.image in th.attached || x.disabled then th
    else
      var (next, ok) := Initialized(th, x.image, ThreadAttach, block);
      Logged(next, ok && x.image.entry, Entry(x.image, ThreadAttach))
  }

  function AttachAll(th: Thread, snapshot: seq<Loaded>, alloc: Allocation): (r: Thread)
    requires ValidThread(th)
    ensures ValidThread(r)
  {
    if snapshot == [] then th
    else
      var n := |snapshot| - 1;
      AttachOne(AttachAll(th, snapshot[..n], alloc), snapshot[n], alloc(snapshot[n].image))
  }

  /** One image of pe_notify_loaded_images(DLL_THREAD_DETACH). */
  function DetachOne(th: Thread, x: Loaded): (r: Thread)
    requires ValidThread(th)
    ensures ValidThread(r)
  {
    if x.image !in th.attached then th
    else
      var told := Logged(Logged(th, !x.disabled && x.image.tls.Some?, Callbacks(x.image, ThreadDetach)),
                         !x.disabled && x.image.entry, Entry(x.image, ThreadDetach));
      var released := Released(told, x.image);
      RemovedShorter(released.attached, x.image);
      released.(attached := Removed(released.attached, x.image))
  }

  /** The snapshot is visited from its end: last loaded first. */
  function DetachAll(th: Thread, snapshot: seq<Loaded>): (r: Thread)
    requires ValidThread(th)
    ensures ValidThread(r)
    decreases |snapshot|
  {
    if snapshot == [] then th
    else
      var n := |snapshot| - 1;
      DetachAll(DetachOne(th, snapshot[n]), snapshot[..n])
  }

  /** The failure half of pe_finish_process_attach. */
  function RolledBack(th: Thread, image: Image, called: bool): (r: Thread)
    requires ValidThread(th)
    ensures ValidThread(r)
  {
    if image in th.attached then
      var told := Logged(Logged(th, Ranged(image) && th.slots[image.tls.value] != 0, Callbacks(image, ProcessDetach)),
                         called && image.entry, Entry(image, ProcessDetach));
      var released := Released(told, image);
      RemovedShorter(released.attached, image);
      released.(attached := Removed(released.attached, image))
    else Logged(th, called && image.entry, Entry(image, ProcessDetach))
  }

  /** load_dll on the calling thread: room says whether the image got a place, result what its entry point returns. */
  function LoadedBy(th: Thread, room: bool, image: Image, block: nat, result: bool): (r: (Thread, bool))
    requires ValidThread(th)
    ensures ValidThread(r.0)
  {
    if !room then (th, false)
    else
      var (next, initialized) := Initialized(th, image, ProcessAttach, block);
      var told := Logged(next, image.entry, Entry(image, ProcessAttach));
      if !initialized then (RolledBack(next, image, false), false)
      else if image.entry && !result then (RolledBack(told, image, true), false)
      else (told, true)
  }

  // ----- lists

  lemma {:induction false} RemovedShorter(s: seq<Image>, image: Image)
    ensures |Removed(s, image)| <= |s|
  {
  }

  predicate NoDuplicates(s: seq<Image>) { forall i, j :: 0 <= i < j < |s| ==> s[i] != s[j] }

  lemma {:induction false} IndexFound(s: seq<Image>, image: Image)
    ensures IndexIn(s, image) < |s| <==> image in s
  {
    if s != [] && s[0] != image {
      IndexFound(s[1..], image);
    }
  }

  /** Removing from a list without duplicates removes exactly that image and keeps the order of the rest. */
  lemma {:induction false} RemovedIs(s: seq<Image>, image: Image)
    requires NoDuplicates(s)
    ensures NoDuplicates(Removed(s, image)) && image !in Removed(s, image)
    ensures forall x :: x in Removed(s, image) <==> x in s && x != image
  {
    IndexFound(s, image);
    var i, r := IndexIn(s, image), Removed(s, image);
    if i < |s| {
      assert forall k :: 0 <= k < |r| ==> r[k] == if k < i then s[k] else s[k + 1];
      forall x | x in s && x != image ensures x in r {
        var k :| 0 <= k < |s| && s[k] == x;
        assert r[if k < i then k else k - 1] == x;
      }
    }
  }

  lemma {:induction false} RemoveLast(s: seq<Image>, image: Image)
    requires image !in s
    ensures Removed(s + [image], image) == s
  {
    IndexOfLast(s, image);
  }

  lemma {:induction false} IndexOfLast(s: seq<Image>, image: Image)
    requires image !in s
    ensures IndexIn(s + [image], image) == |s|
  {
    if s == [] {
      assert (s + [image])[0] == image;
    } else {
      assert (s + [image])[1..] == s[1..] + [image];
      IndexOfLast(s[1..], image);
    }
  }

  // ----- consistency

  predicate DistinctSlots(images: set<Image>) {
    forall x, y :: x in images && y in images && x.tls.Some? && x.tls == y.tls ==> x == y
  }

  /** Among these images, exactly the attached ones with a TLS directory own a slot. */
  ghost predicate Consistent(th: Thread, images: set<Image>) {
    && ValidThread(th) && NoDuplicates(th.attached)
    && (forall x :: x in th.attached ==> x in images)
    && (forall x :: x in th.attached && x.tls.Some? ==> Ranged(x))
    && (forall x :: x in images && Ranged(x) ==> (th.slots[x.tls.value] != 0 <==> x in th.attached))
  }

  lemma {:induction false} AttachedSize(s: seq<Image>, bound: set<Image>)
    requires NoDuplicates(s) && forall x :: x in s ==> x in bound
    ensures |s| <= |bound|
    decreases |s|
  {
    if s != [] {
      var n := |s| - 1;
      AttachedSize(s[..n], bound - {s[n]});
    }
  }

  // ----- what setup does to a consistent thread

  /** When an image ends up attached. */
  predicate Attachable(th: Thread, image: Image, block: nat) {
    image in th.attached || (CanAttach(th, image) && (image.tls.None? || (Ranged(image) && block != 0)))
  }

  function Maybe(happens: bool, e: Event): seq<Event> { if happens then [e] else [] }

  /** What setup adds to the log. */
  function SetupLog(th: Thread, image: Image, reason: Reason, block: nat): seq<Event> {
    var tried := image !in th.attached && Ranged(image) && block != 0;
    Maybe(tried, Alloc(image)) + Maybe(tried && CanAttach(th, image), Callbacks(image, reason))
    + Maybe(tried && !CanAttach(th, image), Free(image))
  }

  /**
   * Setup succeeds exactly when the image can be attached; it then owns a block, and a failure leaves no trace but its
   * log.
   */
  lemma {:induction false} SetupIs(th: Thread, image: Image, reason: Reason, block: nat, images: set<Image>)
    requires Consistent(th, images) && image in images && NeedsAttachment(reason)
    ensures var (r, ok) := Initialized(th, image, reason, block);
            && (ok <==> Attachable(th, image, block))
            && r.attached == (if ok && image !in th.attached then th.attached + [image] else th.attached)
            && r.slots == (if ok && image !in th.attached && Ranged(image)
                           then th.slots[image.tls.value := block] else th.slots)
            && r.log == th.log + SetupLog(th, image, reason, block)
  {
  }

  lemma {:induction false} ThreeEvents(log: seq<Event>, a: Event, b: Event, c: Event)
    ensures log + [a] + [b] + [c] == log + ([a] + [b] + [c]) && log + [a] + [c] == log + ([a] + [] + [c])
    ensures log + [a] + [b] == log + ([a] + [b] + []) && log + [b] + [c] == log + ([] + [b] + [c])
    ensures log + [a] == log + ([a] + [] + []) && log + [b] == log + ([] + [b] + [])
            && log + [c] == log + ([] + [] + [c])
    ensures log == log + ([] + [] + [])
  {
  }

  lemma {:induction false} Appended(th: Thread, r: Thread, image: Image, block: nat, images: set<Image>)
    requires Consistent(th, images) && image in images && DistinctSlots(images)
    requires image !in th.attached && |th.attached| < MAX_LOADED_IMAGES && (image.tls.Some? ==> Ranged(image))
    requires r.attached == th.attached + [image]
    requires image.tls.None? ==> r.slots == th.slots
    requires image.tls.Some? ==> block != 0 && r.slots == th.slots[image.tls.value := block]
    ensures Consistent(r, images)
  {
    assert forall x :: x in r.attached <==> x in th.attached || x == image;
    assert forall x :: x in images && Ranged(x) && image.tls.Some? && x != image ==> x.tls.value != image.tls.value;
  }

  lemma {:induction false} SetupKeeps(th: Thread, image: Image, reason: Reason, block: nat, images: set<Image>)
    requires Consistent(th, images) && image in images && DistinctSlots(images) && NeedsAttachment(reason)
    ensures Consistent(Initialized(th, image, reason, block).0, images)
  {
    SetupIs(th, image, reason, block, images);
    var (r, ok) := Initialized(th, image, reason, block);
    if ok && image !in th.attached {
      Appended(th, r, image, block, images);
    }
  }

  // ----- DLL_THREAD_ATTACH over a snapshot

  /** Whether DLL_THREAD_ATTACH concerns the image on this thread. */
  predicate Offered(th: Thread, x: Loaded) { x.image !in th.attached && !x.disabled }

  function AttachLog(th: Thread, x: Loaded, block: nat): seq<Event> {
    if !Offered(th, x) then []
    else SetupLog(th, x.image, ThreadAttach, block)
         + Maybe(Attachable(th, x.image, block) && x.image.entry, Entry(x.image, ThreadAttach))
  }

  lemma {:induction false} AttachOneIs(th: Thread, x: Loaded, block: nat, images: set<Image>)
    requires Consistent(th, images) && x.image in images && DistinctSlots(images)
    ensures var r := AttachOne(th, x, block);
            && Consistent(r, images)
            && r.attached == (if Offered(th, x) && Attachable(th, x.image, block) then th.attached + [x.image]
                              else th.attached)
            && r.log == th.log + AttachLog(th, x, block)
  {
    if Offered(th, x) {
      SetupIs(th, x.image, ThreadAttach, block, images);
      SetupKeeps(th, x.image, ThreadAttach, block, images);
      Assoc3(th.log, SetupLog(th, x.image, ThreadAttach, block), [Entry(x.image, ThreadAttach)]);
    }
  }

  lemma {:induction false} Assoc3(a: seq<Event>, b: seq<Event>, c: seq<Event>)
    ensures a + b + c == a + (b + c) && a + (b + []) == a + b
  {
  }

  predicate AllIn(snapshot: seq<Loaded>, images: set<Image>) {
    forall i :: 0 <= i < |snapshot| ==> snapshot[i].image in images
  }

  /** Nothing attached is lost, and only images of the snapshot are added. */
  predicate Grown(before: seq<Image>, after: seq<Image>, snapshot: seq<Loaded>) {
    && (forall x :: x in before ==> x in after)
    && (forall x :: x in after ==> x in before || exists i :: 0 <= i < |snapshot| && snapshot[i].image == x)
  }

  /** A setup that failed, with the block it was given. */
  datatype Failure = Failure(image: Image, block: nat)

  /** The image's setup, if the pass gets to it, and fails. */
  function FailureIn(th: Thread, x: Loaded, block: nat): set<Failure>
    requires ValidThread(th)
  {
    if Offered(th, x) && !Initialized(th, x.image, ThreadAttach, block).1 then {Failure(x.image, block)} else {}
  }

  /** The setups of a pass that fail. */
  function FailuresIn(th: Thread, snapshot: seq<Loaded>, alloc: Allocation): set<Failure>
    requires ValidThread(th)
  {
    if snapshot == [] then {}
    else
      var n := |snapshot| - 1;
      FailuresIn(th, snapshot[..n], alloc)
      + FailureIn(AttachAll(th, snapshot[..n], alloc), snapshot[n], alloc(snapshot[n].image))
  }

  /** The index is out of range, or the allocator had no block. */
  predicate NoBlock(f: Failure) { f.image.tls.Some? && (!Ranged(f.image) || f.block == 0) }

  predicate AllNoBlock(failures: set<Failure>) { forall f :: f in failures ==> NoBlock(f) }

  predicate Settled(th: Thread, x: Loaded, block: nat, failures: set<Failure>) {
    x.image in th.attached || x.disabled || Failure(x.image, block) in failures
  }

  lemma {:induction false} AttachAllKeeps(th: Thread, snapshot: seq<Loaded>, alloc: Allocation, images: set<Image>)
    requires Consistent(th, images) && DistinctSlots(images) && AllIn(snapshot, images)
    ensures Consistent(AttachAll(th, snapshot, alloc), images)
    ensures Grown(th.attached, AttachAll(th, snapshot, alloc).attached, snapshot)
  {
    if snapshot != [] {
      var n := |snapshot| - 1;
      var rest, x := snapshot[..n], snapshot[n];
      AllInPrefix(snapshot, n, images);
      AttachAllKeeps(th, rest, alloc, images);
      var mid := AttachAll(th, rest, alloc);
      AttachOneIs(mid, x, alloc(x.image), images);
      GrownMore(th.attached, mid.attached, AttachOne(mid, x, alloc(x.image)).attached, snapshot);
    }
  }

  lemma {:induction false} AllInPrefix(snapshot: seq<Loaded>, n: nat, images: set<Image>)
    requires AllIn(snapshot, images) && n < |snapshot|
    ensures AllIn(snapshot[..n], images) && snapshot[n].image in images
  {
  }

  lemma {:induction false} GrownMore(a: seq<Image>, b: seq<Image>, c: seq<Image>, snapshot: seq<Loaded>)
    requires snapshot != [] && Grown(a, b, snapshot[..|snapshot| - 1])
    requires c == b || c == b + [snapshot[|snapshot| - 1].image]
    ensures Grown(a, c, snapshot)
  {
    var n := |snapshot| - 1;
    forall x | x in c ensures x in a || exists i :: 0 <= i < |snapshot| && snapshot[i].image == x {
      if x in b && x !in a {
        var i :| 0 <= i < n && snapshot[..n][i].image == x;
        assert snapshot[i].image == x;
      } else if x !in b {
        assert snapshot[n].image == x;
      }
    }
  }

  lemma {:induction false} SettledNow(th: Thread, x: Loaded, block: nat, images: set<Image>, bound: set<Image>)
    requires Consistent(th, images) && DistinctSlots(images) && x.image in images && Roomy(th, bound)
             && x.image in bound
    ensures Settled(AttachOne(th, x, block), x, block, FailureIn(th, x, block)) && AllNoBlock(FailureIn(th, x, block))
  {
    AttachOneIs(th, x, block, images);
    RoomFor(th, x.image, bound);
    SetupIs(th, x.image, ThreadAttach, block, images);
  }

  lemma {:induction false} SettledStays(th: Thread, x: Loaded, block: nat, y: Loaded, other: nat,
                                        failures: set<Failure>, images: set<Image>)
    requires Consistent(th, images) && DistinctSlots(images) && x.image in images && Settled(th, y, other, failures)
    ensures Settled(AttachOne(th, x, block), y, other, failures + FailureIn(th, x, block))
  {
    AttachOneIs(th, x, block, images);
  }

  /**
   * With room for every image (RoomFor), one pass leaves each image of the snapshot attached, or with notifications
   * disabled, or with a setup that failed in this pass; and the setups that fail are those that get no block.
   */
  lemma {:induction false} AttachAllSettles(th: Thread, snapshot: seq<Loaded>, alloc: Allocation, images: set<Image>,
                                            bound: set<Image>)
    requires Consistent(th, images) && DistinctSlots(images) && AllIn(snapshot, images)
    requires Roomy(th, bound) && AllIn(snapshot, bound)
    ensures var r, failures := AttachAll(th, snapshot, alloc), FailuresIn(th, snapshot, alloc);
            && (forall i :: 0 <= i < |snapshot| ==> Settled(r, snapshot[i], alloc(snapshot[i].image), failures))
            && AllNoBlock(failures)
  {
    if snapshot != [] {
      var n := |snapshot| - 1;
      var rest, x := snapshot[..n], snapshot[n];
      var block: nat := alloc(x.image);
      AllInPrefix(snapshot, n, images);
      AllInPrefix(snapshot, n, bound);
      AttachAllKeeps(th, rest, alloc, images);
      StillRoomy(th, rest, alloc, images, bound);
      AttachAllSettles(th, rest, alloc, images, bound);
      var mid, failures := AttachAll(th, rest, alloc), FailuresIn(th, rest, alloc);
      SettledNow(mid, x, block, images, bound);
      forall i | 0 <= i < |snapshot|
        ensures Settled(AttachOne(mid, x, block), snapshot[i], alloc(snapshot[i].image), failures
                        + FailureIn(mid, x, block))
      {
        if i < n {
          assert rest[i] == snapshot[i];
          SettledStays(mid, x, block, snapshot[i], alloc(snapshot[i].image), failures, images);
        }
      }
    }
  }

  /** All attached images come from a set of at most 32. */
  predicate Roomy(th: Thread, bound: set<Image>) {
    |bound| <= MAX_LOADED_IMAGES && forall x :: x in th.attached ==> x in bound
  }

  /** Then an image of the set that is not attached yet always fits. */
  lemma {:induction false} RoomFor(th: Thread, image: Image, bound: set<Image>)
    requires ValidThread(th) && NoDuplicates(th.attached) && Roomy(th, bound) && image in bound
    ensures image !in th.attached ==> CanAttach(th, image)
  {
    if image !in th.attached {
      AttachedSize(th.attached, bound - {image});
    }
  }

  lemma {:induction false} StillRoomy(th: Thread, snapshot: seq<Loaded>, alloc: Allocation, images: set<Image>,
                                      bound: set<Image>)
    requires Consistent(th, images) && DistinctSlots(images) && AllIn(snapshot, images) && Roomy(th, bound)
             && AllIn(snapshot, bound)
    ensures Roomy(AttachAll(th, snapshot, alloc), bound)
  {
    AttachAllKeeps(th, snapshot, alloc, images);
  }

  // ----- accounting

  /** How often an image was told to attach and to detach, and how often its block was taken and freed. */
  datatype Tally = Tally(told: nat, left: nat, taken: nat, freed: nat)

  function Nothing(): Tally { Tally(0, 0, 0, 0) }

  function Plus(a: Tally, b: Tally): Tally {
    Tally(a.told + b.told, a.left + b.left, a.taken + b.taken, a.freed + b.freed)
  }

  function TallyOne(e: Event, image: Image): Tally {
    if e.image != image then Nothing()
    else
      match e
      case Alloc(_) => Tally(0, 0, 1, 0)
      case Free(_) => Tally(0, 0, 0, 1)
      case Entry(_, ThreadAttach) => Tally(1, 0, 0, 0)
      case Entry(_, ThreadDetach) => Tally(0, 1, 0, 0)
      case _ => Nothing()
  }

  function TallyOf(log: seq<Event>, image: Image): Tally {
    if log == [] then Nothing() else Plus(TallyOf(log[..|log| - 1], image), TallyOne(log[|log| - 1], image))
  }

  lemma {:induction false} TallyAdd(a: seq<Event>, b: seq<Event>, image: Image)
    ensures TallyOf(a + b, image) == Plus(TallyOf(a, image), TallyOf(b, image))
    decreases |b|
  {
    if b == [] {
      assert a + b == a;
    } else {
      var n := |b| - 1;
      assert (a + b)[..|a| + n] == a + b[..n];
      TallyAdd(a, b[..n], image);
    }
  }

  lemma {:induction false} MaybeTally(happens: bool, e: Event, image: Image)
    ensures TallyOf(Maybe(happens, e), image) == if happens then TallyOne(e, image) else Nothing()
  {
    assert [e][..0] == [];
  }

  /** The tally of one image, as a function of the log. */
  type Count = seq<Event> -> Tally

  function CountOf(image: Image): Count { log => TallyOf(log, image) }

  type Weigh = Event -> Tally

  function WeighFor(image: Image): Weigh { e => TallyOne(e, image) }

  function One(happens: bool, e: Event, weigh: Weigh): Tally { if happens then weigh(e) else Nothing() }

  /** What the proofs below use of it. */
  ghost predicate Counts(tally: Count, weigh: Weigh) {
    && (forall a: seq<Event>, b: seq<Event> {:trigger Plus(tally(a), tally(b))} ::
        tally(a + b) == Plus(tally(a), tally(b)))
    && (forall happens: bool, e: Event {:trigger One(happens, e, weigh)} ::
        tally(Maybe(happens, e)) == One(happens, e, weigh))
  }

  lemma {:induction false} CountsHolds(image: Image)
    ensures Counts(CountOf(image), WeighFor(image))
  {
    forall a: seq<Event>, b: seq<Event> ensures CountOf(image)(a + b) == Plus(CountOf(image)(a), CountOf(image)(b)) {
      TallyAdd(a, b, image);
    }
    forall happens: bool, e: Event ensures CountOf(image)(Maybe(happens, e)) == One(happens, e, WeighFor(image)) {
      MaybeTally(happens, e, image);
    }
  }

  function When(happens: bool, t: Tally): Tally { if happens then t else Nothing() }

  lemma {:induction false} OneTally(tally: Count, weigh: Weigh, f: bool, a: Event, t: Tally)
    requires Counts(tally, weigh) && weigh(a) == t
    ensures tally(Maybe(f, a)) == When(f, t)
  {
    assert tally(Maybe(f, a)) == One(f, a, weigh);
  }

  lemma {:induction false} ThreeTally(tally: Count, weigh: Weigh, f: bool, a: Event, t: Tally, g: bool, b: Event,
                                      u: Tally, h: bool, c: Event, v: Tally)
    requires Counts(tally, weigh) && weigh(a) == t && weigh(b) == u && weigh(c) == v
    ensures tally(Maybe(f, a) + Maybe(g, b) + Maybe(h, c)) == Plus(Plus(When(f, t), When(g, u)), When(h, v))
  {
    JoinThree(tally, weigh, Maybe(f, a), Maybe(g, b), Maybe(h, c));
    OneTally(tally, weigh, f, a, t);
    OneTally(tally, weigh, g, b, u);
    OneTally(tally, weigh, h, c, v);
  }

  lemma {:induction false} NoneTally(tally: Count, image: Image)
    requires Counts(tally, WeighFor(image))
    ensures tally([]) == Nothing()
  {
    OneTally(tally, WeighFor(image), false, Callbacks(image, ThreadAttach), Nothing());
  }

  lemma {:induction false} JoinTwo(tally: Count, weigh: Weigh, x: seq<Event>, y: seq<Event>)
    requires Counts(tally, weigh)
    ensures tally(x + y) == Plus(tally(x), tally(y))
  {
    assert tally(x + y) == Plus(tally(x), tally(y));
  }

  lemma {:induction false} JoinThree(tally: Count, weigh: Weigh, x: seq<Event>, y: seq<Event>, z: seq<Event>)
    requires Counts(tally, weigh)
    ensures tally(x + y + z) == Plus(Plus(tally(x), tally(y)), tally(z))
  {
    JoinTwo(tally, weigh, x, y);
    JoinTwo(tally, weigh, x + y, z);
  }

  /** The weight of an image's own event. */
  function IfOf(x: Image, image: Image, t: Tally): Tally { When(x == image, t) }

  lemma {:induction false} SetupTally(tally: Count, th: Thread, x: Image, reason: Reason, block: nat, image: Image)
    requires Counts(tally, WeighFor(image))
    ensures tally(SetupLog(th, x, reason, block)) ==
            if x != image || x in th.attached || !Ranged(x) || block == 0 then Nothing()
            else if CanAttach(th, x) then Tally(0, 0, 1, 0) else Tally(0, 0, 1, 1)
  {
    var tried := x !in th.attached && Ranged(x) && block != 0;
    ThreeTally(tally, WeighFor(image), tried, Alloc(x), IfOf(x, image, Tally(0, 0, 1, 0)),
               tried && CanAttach(th, x), Callbacks(x, reason), Nothing(),
               tried && !CanAttach(th, x), Free(x), IfOf(x, image, Tally(0, 0, 0, 1)));
  }

  /**
   * While a thread lives: an image has had at most one DLL_THREAD_ATTACH, and only if it is attached and loaded; it has
   * had no DLL_THREAD_DETACH; and its allocations exceed its frees by the block it holds.
   */
  predicate AccountedFor(t: Tally, attached: seq<Image>, image: Image, loaded: bool) {
    && t.told <= (if image in attached && loaded then 1 else 0)
    && t.left == 0
    && t.taken == t.freed + (if image in attached && Ranged(image) then 1 else 0)
  }

  lemma {:induction false} OfferedTally(tally: Count, th: Thread, x: Image, block: nat, told: bool, image: Image)
    requires Counts(tally, WeighFor(image)) && x !in th.attached && CanAttach(th, x)
    ensures tally(SetupLog(th, x, ThreadAttach, block) + Maybe(told, Entry(x, ThreadAttach)))
            == if x != image then Nothing()
               else Tally(if told then 1 else 0, 0, if Ranged(x) && block != 0 then 1 else 0, 0)
  {
    SetupTally(tally, th, x, ThreadAttach, block, image);
    OneTally(tally, WeighFor(image), told, Entry(x, ThreadAttach), IfOf(x, image, Tally(1, 0, 0, 0)));
    JoinTwo(tally, WeighFor(image), SetupLog(th, x, ThreadAttach, block), Maybe(told, Entry(x, ThreadAttach)));
  }

  lemma {:induction false} AttachTally(tally: Count, th: Thread, x: Loaded, block: nat, image: Image)
    requires Counts(tally, WeighFor(image)) && (x.image !in th.attached ==> CanAttach(th, x.image))
    ensures tally(AttachLog(th, x, block)) ==
            if !Offered(th, x) || x.image != image || !Attachable(th, image, block) then Nothing()
            else Tally(if image.entry then 1 else 0, 0, if Ranged(image) then 1 else 0, 0)
  {
    if Offered(th, x) {
      OfferedTally(tally, th, x.image, block, Attachable(th, x.image, block) && x.image.entry, image);
    } else {
      NoneTally(tally, image);
    }
  }

  lemma {:induction false} AttachOneAccounts(tally: Count, th: Thread, x: Loaded, block: nat, images: set<Image>,
                                             bound: set<Image>, y: Image, loaded: bool)
    requires Counts(tally, WeighFor(y))
    requires Consistent(th, images) && x.image in images && DistinctSlots(images) && Roomy(th, bound)
             && x.image in bound
    requires AccountedFor(tally(th.log), th.attached, y, loaded) && (y == x.image ==> loaded)
    ensures var r := AttachOne(th, x, block); AccountedFor(tally(r.log), r.attached, y, loaded)
  {
    AttachOneIs(th, x, block, images);
    RoomFor(th, x.image, bound);
    AttachTally(tally, th, x, block, y);
    assert tally(th.log + AttachLog(th, x, block)) == Plus(tally(th.log), tally(AttachLog(th, x, block)));
  }

  lemma {:induction false} AttachAllAccounts(tally: Count, th: Thread, snapshot: seq<Loaded>, alloc: Allocation,
                                             images: set<Image>, bound: set<Image>, y: Image, loaded: bool)
    requires Counts(tally, WeighFor(y))
    requires Consistent(th, images) && DistinctSlots(images) && AllIn(snapshot, images) && Roomy(th, bound)
             && AllIn(snapshot, bound)
    requires AccountedFor(tally(th.log), th.attached, y, loaded)
    requires !loaded ==> forall i :: 0 <= i < |snapshot| ==> snapshot[i].image != y
    ensures var r := AttachAll(th, snapshot, alloc); AccountedFor(tally(r.log), r.attached, y, loaded)
  {
    if snapshot != [] {
      var n := |snapshot| - 1;
      var rest := snapshot[..n];
      AllInPrefix(snapshot, n, images);
      AllInPrefix(snapshot, n, bound);
      assert forall i :: 0 <= i < n ==> rest[i] == snapshot[i];
      AttachAllKeeps(th, rest, alloc, images);
      StillRoomy(th, rest, alloc, images, bound);
      AttachAllAccounts(tally, th, rest, alloc, images, bound, y, loaded);
      AttachOneAccounts(tally, AttachAll(th, rest, alloc), snapshot[n], alloc(snapshot[n].image), images, bound, y,
                        loaded);
    }
  }

  // ----- every block has an owner

  predicate OwnerIn(attached: seq<Image>, i: nat) { exists x :: x in attached && x.tls == Some(i) }

  predicate OwnedSlots(th: Thread)
    requires ValidThread(th)
  {
    forall i :: 0 <= i < MAX_TLS_SLOTS && th.slots[i] != 0 ==> OwnerIn(th.attached, i)
  }

  /** What is consistent whatever images there are: attached ones own their slots, and nobody else owns any. */
  predicate Sane(th: Thread) {
    && ValidThread(th) && NoDuplicates(th.attached) && OwnedSlots(th)
    && (forall x :: x in th.attached && x.tls.Some? ==> Ranged(x) && th.slots[x.tls.value] != 0)
  }

  lemma {:induction false} SaneIsConsistent(th: Thread, images: set<Image>)
    requires Sane(th) && DistinctSlots(images) && forall x :: x in th.attached ==> x in images
    ensures Consistent(th, images)
  {
    forall x | x in images && Ranged(x) ensures th.slots[x.tls.value] != 0 <==> x in th.attached {
      if th.slots[x.tls.value] != 0 {
        var y :| y in th.attached && y.tls == Some(x.tls.value);
        assert y == x;
      }
    }
  }

  lemma {:induction false} ConsistentIsSane(th: Thread, images: set<Image>)
    requires Consistent(th, images) && OwnedSlots(th)
    ensures Sane(th)
  {
  }

  lemma {:induction false} OwnersGrow(a: seq<Image>, x: Image, i: nat)
    ensures OwnerIn(a, i) ==> OwnerIn(a + [x], i)
    ensures x.tls == Some(i) ==> OwnerIn(a + [x], i)
  {
    if OwnerIn(a, i) {
      var y :| y in a && y.tls == Some(i);
      assert y in a + [x];
    }
    assert x in a + [x];
  }

  lemma {:induction false} SetupOwned(th: Thread, image: Image, reason: Reason, block: nat, images: set<Image>)
    requires Consistent(th, images) && image in images && NeedsAttachment(reason) && OwnedSlots(th)
    ensures OwnedSlots(Initialized(th, image, reason, block).0)
  {
    SetupIs(th, image, reason, block, images);
    var r := Initialized(th, image, reason, block).0;
    forall i | 0 <= i < MAX_TLS_SLOTS && r.slots[i] != 0 ensures OwnerIn(r.attached, i) {
      OwnersGrow(th.attached, image, i);
    }
  }

  lemma {:induction false} AttachAllOwned(th: Thread, snapshot: seq<Loaded>, alloc: Allocation, images: set<Image>)
    requires Consistent(th, images) && DistinctSlots(images) && AllIn(snapshot, images) && OwnedSlots(th)
    ensures OwnedSlots(AttachAll(th, snapshot, alloc))
  {
    if snapshot != [] {
      var n := |snapshot| - 1;
      AllInPrefix(snapshot, n, images);
      AttachAllKeeps(th, snapshot[..n], alloc, images);
      AttachAllOwned(th, snapshot[..n], alloc, images);
      var mid, x := AttachAll(th, snapshot[..n], alloc), snapshot[n];
      if Offered(mid, x) {
        SetupOwned(mid, x.image, ThreadAttach, alloc(x.image), images);
      }
    }
  }

  /** Taking an image off the list together with its slot. */
  lemma {:induction false} RemovedOwned(th: Thread, image: Image, r: Thread)
    requires ValidThread(th) && NoDuplicates(th.attached) && OwnedSlots(th) && ValidThread(r)
    requires r.attached == Removed(th.attached, image)
    requires forall i :: 0 <= i < MAX_TLS_SLOTS && r.slots[i] != 0 ==> th.slots[i] != 0 && image.tls != Some(i)
    ensures OwnedSlots(r)
  {
    RemovedIs(th.attached, image);
    forall i | 0 <= i < MAX_TLS_SLOTS && r.slots[i] != 0 ensures OwnerIn(r.attached, i) {
      var y :| y in th.attached && y.tls == Some(i);
      assert y in r.attached;
    }
  }

  lemma {:induction false} DetachAllOwned(th: Thread, snapshot: seq<Loaded>, images: set<Image>)
    requires Consistent(th, images) && DistinctSlots(images) && AllIn(snapshot, images) && OwnedSlots(th)
    ensures OwnedSlots(DetachAll(th, snapshot))
    decreases |snapshot|
  {
    if snapshot != [] {
      var n := |snapshot| - 1;
      var x := snapshot[n];
      AllInPrefix(snapshot, n, images);
      DetachOneIs(th, x, images);
      if x.image in th.attached {
        RemovedOwned(th, x.image, DetachOne(th, x));
      }
      DetachAllOwned(DetachOne(th, x), snapshot[..n], images);
    }
  }

  lemma {:induction false} RollbackOwned(th: Thread, image: Image, called: bool)
    requires ValidThread(th) && NoDuplicates(th.attached) && OwnedSlots(th)
    ensures OwnedSlots(RolledBack(th, image, called))
  {
    if image in th.attached {
      RemovedOwned(th, image, RolledBack(th, image, called));
    }
  }

  // ----- process attach, and its failure

  lemma {:induction false} SetupAccounts(tally: Count, th: Thread, image: Image, block: nat, images: set<Image>,
                                         y: Image, loaded: bool)
    requires Counts(tally, WeighFor(y))
    requires Consistent(th, images) && image in images && DistinctSlots(images)
    requires AccountedFor(tally(th.log), th.attached, y, loaded)
    ensures var r := Initialized(th, image, ProcessAttach, block).0; AccountedFor(tally(r.log), r.attached, y, loaded)
  {
    SetupIs(th, image, ProcessAttach, block, images);
    SetupTally(tally, th, image, ProcessAttach, block, y);
    assert tally(th.log + SetupLog(th, image, ProcessAttach, block))
           == Plus(tally(th.log), tally(SetupLog(th, image, ProcessAttach, block)));
  }

  /** What rolling back adds to the log. */
  function RollbackLog(th: Thread, image: Image, called: bool): seq<Event> {
    var own := image in th.attached && Ranged(image);
    Maybe(own, Callbacks(image, ProcessDetach)) + Maybe(called && image.entry, Entry(image, ProcessDetach))
      + Maybe(own, Free(image))
  }

  lemma {:induction false} RollbackIs(th: Thread, image: Image, called: bool, images: set<Image>)
    requires Consistent(th, images) && image in images
    ensures var r := RolledBack(th, image, called);
            && r.attached == Removed(th.attached, image) && r.log == th.log + RollbackLog(th, image, called)
            && r.slots == (if image in th.attached && Ranged(image) then th.slots[image.tls.value := 0] else th.slots)
  {
    IndexFound(th.attached, image);
    var a, b, c := Callbacks(image, ProcessDetach), Entry(image, ProcessDetach), Free(image);
    ThreeEvents(th.log, a, b, c);
  }

  lemma {:induction false} RollbackTally(tally: Count, th: Thread, x: Image, called: bool, image: Image)
    requires Counts(tally, WeighFor(image))
    ensures tally(RollbackLog(th, x, called))
            == Tally(0, 0, 0, if x == image && x in th.attached && Ranged(x) then 1 else 0)
  {
    var own := x in th.attached && Ranged(x);
    ThreeTally(tally, WeighFor(image), own, Callbacks(x, ProcessDetach), Nothing(),
               called && x.entry, Entry(x, ProcessDetach), Nothing(), own, Free(x), IfOf(x, image, Tally(0, 0, 0, 1)));
  }

  lemma {:induction false} RollbackKeeps(th: Thread, image: Image, called: bool, images: set<Image>)
    requires Consistent(th, images) && image in images && DistinctSlots(images)
    ensures Consistent(RolledBack(th, image, called), images)
  {
    RollbackIs(th, image, called, images);
    RemovedIs(th.attached, image);
  }

  lemma {:induction false} RollbackAccounts(tally: Count, th: Thread, image: Image, called: bool, images: set<Image>,
                                            y: Image, loaded: bool)
    requires Counts(tally, WeighFor(y))
    requires Consistent(th, images) && image in images
    requires AccountedFor(tally(th.log), th.attached, y, loaded) && (y == image ==> !loaded)
    ensures var r := RolledBack(th, image, called); AccountedFor(tally(r.log), r.attached, y, loaded)
  {
    RollbackIs(th, image, called, images);
    RemovedIs(th.attached, image);
    RollbackTally(tally, th, image, called, y);
    assert tally(th.log + RollbackLog(th, image, called)) == Plus(tally(th.log), tally(RollbackLog(th, image, called)));
  }

  /** A process attach that fails leaves the attached set and the TLS slots as they were. */
  lemma {:induction false} FailedAttachRestores(th: Thread, image: Image, block: nat, called: bool, images: set<Image>)
    requires Consistent(th, images) && image in images && DistinctSlots(images) && image !in th.attached
    ensures var (r, ok) := Initialized(th, image, ProcessAttach, block);
            var back := RolledBack(r, image, called);
            back.attached == th.attached && back.slots == th.slots
  {
    SetupIs(th, image, ProcessAttach, block, images);
    SetupKeeps(th, image, ProcessAttach, block, images);
    var (r, ok) := Initialized(th, image, ProcessAttach, block);
    RollbackIs(r, image, called, images);
    if ok {
      RemoveLast(th.attached, image);
    } else {
      IndexFound(th.attached, image);
    }
    if image.tls.Some? && Ranged(image) {
      assert th.slots[image.tls.value] == 0;
      assert th.slots[image.tls.value := block][image.tls.value := 0] == th.slots;
    }
  }

  // ----- thread exit

  /** What DLL_THREAD_DETACH does to one image. */
  function DetachLog(attached: bool, x: Loaded): seq<Event> {
    Maybe(attached && !x.disabled && x.image.tls.Some?, Callbacks(x.image, ThreadDetach))
    + Maybe(attached && !x.disabled && x.image.entry, Entry(x.image, ThreadDetach))
    + Maybe(attached && Ranged(x.image), Free(x.image))
  }

  /** The last loaded image goes first. */
  function ExitLog(attached: seq<Image>, snapshot: seq<Loaded>): seq<Event> {
    if snapshot == [] then []
    else
      var n := |snapshot| - 1;
      DetachLog(snapshot[n].image in attached, snapshot[n]) + ExitLog(attached, snapshot[..n])
  }

  lemma {:induction false} DetachOneIs(th: Thread, x: Loaded, images: set<Image>)
    requires Consistent(th, images) && x.image in images && DistinctSlots(images)
    ensures var r := DetachOne(th, x);
            && Consistent(r, images) && r.attached == Removed(th.attached, x.image)
            && r.log == th.log + DetachLog(x.image in th.attached, x)
  {
    IndexFound(th.attached, x.image);
    RemovedIs(th.attached, x.image);
    DetachEvents(th, x);
  }

  lemma {:induction false} DetachEvents(th: Thread, x: Loaded)
    requires ValidThread(th) && (x.image in th.attached && Ranged(x.image) ==> th.slots[x.image.tls.value] != 0)
    ensures DetachOne(th, x).log == th.log + DetachLog(x.image in th.attached, x)
  {
    ThreeEvents(th.log, Callbacks(x.image, ThreadDetach), Entry(x.image, ThreadDetach), Free(x.image));
  }

  lemma {:induction false} FirstIn(s: seq<Image>)
    ensures s != [] ==> exists x :: x in s
  {
    if s != [] {
      assert s[0] in s;
    }
  }

  predicate DistinctImages(snapshot: seq<Loaded>) { forall i,
                           j :: 0 <= i < j < |snapshot| ==> snapshot[i].image != snapshot[j].image }

  /** The log only asks about the snapshot's own images. */
  lemma {:induction false} ExitLogSame(a: seq<Image>, b: seq<Image>, snapshot: seq<Loaded>)
    requires forall i :: 0 <= i < |snapshot| ==> (snapshot[i].image in a <==> snapshot[i].image in b)
    ensures ExitLog(a, snapshot) == ExitLog(b, snapshot)
  {
    if snapshot != [] {
      var n := |snapshot| - 1;
      assert snapshot[n].image in a <==> snapshot[n].image in b;
      ExitLogSame(a, b, snapshot[..n]);
    }
  }

  /**
   * Thread exit visits exactly the attached images, last loaded first, and calls, frees and removes each: with every
   * attached image in the snapshot, nothing stays attached and no slot of any of these images is owned.
   */
  lemma {:induction false} ExitIs(th: Thread, snapshot: seq<Loaded>, images: set<Image>)
    requires Consistent(th, images) && DistinctSlots(images) && AllIn(snapshot, images) && DistinctImages(snapshot)
    requires Within(th.attached, snapshot)
    ensures var r := DetachAll(th, snapshot);
            && r.attached == [] && r.log == th.log + ExitLog(th.attached, snapshot)
            && forall x :: x in images && Ranged(x) ==> r.slots[x.tls.value] == 0
    decreases |snapshot|
  {
    if snapshot == [] {
      FirstIn(th.attached);
      assert th.log + [] == th.log;
    } else {
      var n := |snapshot| - 1;
      var rest, x := snapshot[..n], snapshot[n];
      var mid := DetachOne(th, x);
      DetachOneIs(th, x, images);
      AllInPrefix(snapshot, n, images);
      ExitStep(th.attached, snapshot);
      ExitIs(mid, rest, images);
      Assoc3(th.log, DetachLog(x.image in th.attached, x), ExitLog(th.attached, rest));
    }
  }

  /** Every image of the list is in the snapshot. */
  predicate Within(attached: seq<Image>, snapshot: seq<Loaded>) {
    forall x :: x in attached ==> exists i :: 0 <= i < |snapshot| && snapshot[i].image == x
  }

  /** Without the last loaded image, the rest of the snapshot covers the rest of the list and asks the same of it. */
  lemma {:induction false} ExitStep(attached: seq<Image>, snapshot: seq<Loaded>)
    requires snapshot != [] && DistinctImages(snapshot) && Within(attached, snapshot) && NoDuplicates(attached)
    ensures var n := |snapshot| - 1;
            var left := Removed(attached, snapshot[n].image);
            DistinctImages(snapshot[..n]) && Within(left, snapshot[..n])
              && ExitLog(left, snapshot[..n]) == ExitLog(attached, snapshot[..n])
  {
    var n := |snapshot| - 1;
    var rest, left := snapshot[..n], Removed(attached, snapshot[n].image);
    RemovedIs(attached, snapshot[n].image);
    assert forall i :: 0 <= i < n ==> rest[i] == snapshot[i];
    forall y | y in left ensures exists i :: 0 <= i < |rest| && rest[i].image == y {
      var i :| 0 <= i < |snapshot| && snapshot[i].image == y;
      assert rest[i].image == y;
    }
    ExitLogSame(attached, left, rest);
  }

  /** The snapshot's record of an image, if it has one. */
  function Find(snapshot: seq<Loaded>, image: Image): Option<Loaded> {
    if snapshot == [] then None
    else
      var n := |snapshot| - 1;
      if snapshot[n].image == image then Some(snapshot[n]) else Find(snapshot[..n], image)
  }

  /** In the exit log each image is told once if it is attached and wants to be told, and its block is freed once. */
  lemma {:induction false} ExitTally(tally: Count, attached: seq<Image>, snapshot: seq<Loaded>, image: Image)
    requires Counts(tally, WeighFor(image)) && DistinctImages(snapshot)
    ensures tally(ExitLog(attached, snapshot)) == ExitCount(attached, Find(snapshot, image), image)
  {
    if snapshot == [] {
      NoneTally(tally, image);
    } else {
      var n := |snapshot| - 1;
      var rest, x := snapshot[..n], snapshot[n];
      assert forall i :: 0 <= i < n ==> rest[i] == snapshot[i];
      ExitTally(tally, attached, rest, image);
      if x.image == image {
        NotFound(rest, image);
      }
      ExitTallyStep(tally, attached, x, ExitLog(attached, rest), image, Find(rest, image));
    }
  }

  lemma {:induction false} ExitTallyStep(tally: Count, attached: seq<Image>, x: Loaded, log: seq<Event>, image: Image,
                                         found: Option<Loaded>)
    requires Counts(tally, WeighFor(image)) && tally(log) == ExitCount(attached, found, image)
             && (x.image == image ==> found.None?)
    ensures tally(DetachLog(x.image in attached, x) + log)
            == ExitCount(attached, if x.image == image then Some(x) else found, image)
  {
    JoinTwo(tally, WeighFor(image), DetachLog(x.image in attached, x), log);
    OwnTally(tally, x.image in attached, x, image);
  }

  function ExitCount(attached: seq<Image>, found: Option<Loaded>, image: Image): Tally {
    if found.None? || image !in attached then Nothing()
    else Tally(0, if !found.value.disabled && image.entry then 1 else 0, 0, if Ranged(image) then 1 else 0)
  }

  lemma {:induction false} NotFound(snapshot: seq<Loaded>, image: Image)
    requires forall i :: 0 <= i < |snapshot| ==> snapshot[i].image != image
    ensures Find(snapshot, image).None?
  {
    if snapshot != [] {
      assert snapshot[|snapshot| - 1].image != image;
      NotFound(snapshot[..|snapshot| - 1], image);
    }
  }

  lemma {:induction false} OwnTally(tally: Count, attached: bool, x: Loaded, image: Image)
    requires Counts(tally, WeighFor(image))
    ensures tally(DetachLog(attached, x)) ==
            if x.image != image || !attached then Nothing()
            else Tally(0, if !x.disabled && image.entry then 1 else 0, 0, if Ranged(image) then 1 else 0)
  {
    ThreeTally(tally, WeighFor(image), attached && !x.disabled
               && x.image.tls.Some?, Callbacks(x.image, ThreadDetach), Nothing(),
               attached && !x.disabled && x.image.entry, Entry(x.image, ThreadDetach),
                 IfOf(x.image, image, Tally(0, 1, 0, 0)),
               attached && Ranged(x.image), Free(x.image), IfOf(x.image, image, Tally(0, 0, 0, 1)));
  }
}
