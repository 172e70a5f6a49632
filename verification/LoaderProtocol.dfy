/**
 * The loader as a state machine over any number of threads and any interleaving of their steps: image publication, the
 * generation fast path, the pass a started thread makes, process attach with rollback, and thread exit as detach, drain
 * and reset (src/pe_loader.cpp:137-154, 331-486, src/winlibs.cpp:391-408; the order of steps in one load is
 * src/dll_loader.cpp:27-74). DllMain and TLS callbacks are opaque: they are events in a thread's log.
 */
module LoaderProtocol {
  import opened Wrappers
  import opened ThreadState

  /**
   * What a thread is doing. Woken holds the generation it read, Snapped also its snapshot, Caught the generation it is
   * about to cache; the others are the stages of loading an image, with the thread's state when the load began.
   */
  datatype Phase =
    | Idle
    | Woken(generation: nat)
    | Snapped(generation: nat, snapshot: seq<Loaded>)
    | Caught(generation: nat)
    | Entering(image: Image, before: Thread)
    | InEntry(image: Image, before: Thread)
    | Failing(image: Image, before: Thread, called: bool)

  /**
   * How far a thread's exit is. Gone: detached, its FLS callbacks draining and nothing attached again. Back: a callback
   * made an attach pass since. The context is freed when the drain ends.
   */
  datatype Stage = Live | Gone | Back

  /**
   * failed are the setups that failed on this context; blind says that the last pass that ended got no context; past is
   * the log of the context until it was detached, after which the log starts anew.
   */
  datatype Local = Local(ctx: Option<Thread>, cached: nat, phase: Phase, failed: set<Failure>, blind: bool,
                         stage: Stage, past: seq<Event>)

  datatype State = State(loaded: seq<Image>, pending: nat, generation: nat, disabled: set<Image>, threads: seq<Local>)

  /**
   * StartPass is the pass a started thread makes after setting up its context: it takes no generation, so the one it
   * had is what it ends with. Detach is the DLL_THREAD_DETACH pass of an exit, Reset the end of the drain.
   */
  datatype Action =
    | EnsureStart
    | StartPass
    | TakeSnapshot(gotContext: bool)
    | NotifyAttach(alloc: Allocation)
    | CacheGeneration
    | Begin(image: Image)
    | SetUp(alloc: Allocation)
    | EntryReturns(result: bool)
    | RollBack
    | DisableCalls(image: Image)
    | Detach
    | Reset

  /** The image the thread is attaching, if any. */
  function Attaching(p: Phase): Option<Image> {
    match p
    case Entering(x, _) => Some(x)
    case InEntry(x, _) => Some(x)
    case Failing(x, _, _) => Some(x)
    case _ => None
  }

  /** Whether the thread's load counts as pending. */
  predicate Pending(p: Phase) { p.Entering? || p.InEntry? }

  function NewContext(): (th: Thread)
    ensures ValidThread(th)
  {
    Thread([], seq(MAX_TLS_SLOTS, _ => 0), [])
  }

  function ContextOf(l: Local): Thread { if l.ctx.Some? then l.ctx.value else NewContext() }

  /** loaded_images_snapshot. */
  function SnapshotOf(loaded: seq<Image>, disabled: set<Image>): (s: seq<Loaded>)
    ensures |s| == |loaded|
  {
    seq(|loaded|, i requires 0 <= i < |loaded| => Loaded(loaded[i], loaded[i] in disabled))
  }

  function ImagesOf(loaded: seq<Image>): set<Image> { set x | x in loaded }

  /** A thread without a context that has seen nothing. */
  function NewLocal(): Local { Local(None, 0, Idle, {}, false, Live, []) }

  /** pe_notify_loaded_images(DLL_THREAD_ATTACH) on the snapshot taken: a pass during the drain brings images back. */
  function Notify(l: Local, alloc: Allocation): Local
    requires l.phase.Snapped? && l.ctx.Some? && ValidThread(l.ctx.value)
  {
    l.(ctx := Some(AttachAll(l.ctx.value, l.phase.snapshot, alloc)), phase := Caught(l.phase.generation),
       failed := l.failed + FailuresIn(l.ctx.value, l.phase.snapshot, alloc),
       blind := false, stage := if l.stage.Gone? then Back else l.stage)
  }

  /** pe_notify_loaded_images(DLL_THREAD_DETACH): the cached generation stays what it was. */
  function Detached(l: Local, snapshot: seq<Loaded>): Local
    requires l.ctx.Some? && ValidThread(l.ctx.value)
  {
    var th := DetachAll(l.ctx.value, snapshot);
    l.(ctx := Some(th.(log := [])), stage := Gone, past := th.log)
  }

  /** Two images do not share a TLS index. */
  predicate NoClash(x: Image, y: Image) { x.tls.Some? ==> x.tls != y.tls }

  /** An image not there yet, with an index that TlsAlloc has not given to any that is loaded or being attached. */
  predicate Fresh(s: State, x: Image) {
    && (forall y :: y in s.loaded ==> x != y && NoClash(x, y))
    && forall u :: 0 <= u < |s.threads| && Attaching(s.threads[u].phase).Some? ==>
         Attaching(s.threads[u].phase).value != x && NoClash(x, Attaching(s.threads[u].phase).value)
  }

  /** Whether a thread can take an action; images are those the program ever loads. */
  ghost predicate Enabled(s: State, t: nat, a: Action, images: set<Image>) {
    && t < |s.threads|
    && var l := s.threads[t];
    match a
    case EnsureStart => l.phase.Idle?
    case StartPass => l.phase.Idle?
    case TakeSnapshot(ok) => l.phase.Woken? && (l.ctx.Some? ==> ok)
    case NotifyAttach(_) => l.phase.Snapped? && l.ctx.Some? && ValidThread(l.ctx.value)
    case CacheGeneration => l.phase.Caught?
    case Begin(x) => l.phase.Idle? && x in images && Fresh(s, x)
    case SetUp(_) => l.phase.Entering? && l.ctx.Some? && ValidThread(l.ctx.value) && s.pending > 0
    case EntryReturns(result) => l.phase.InEntry? && l.ctx.Some? && s.pending > 0 && (!l.phase.image.entry ==> result)
    case RollBack => l.phase.Failing? && l.ctx.Some? && ValidThread(l.ctx.value)
    case DisableCalls(_) => true
    case Detach => l.phase.Idle? && l.stage.Live? && l.ctx.Some? && ValidThread(l.ctx.value)
    case Reset => l.phase.Idle? && !l.stage.Live?
  }

  /** The acting thread's own part of a step. */
  function Acted(s: State, l: Local, a: Action): Local
    requires match a
             case NotifyAttach(_) => l.phase.Snapped? && l.ctx.Some? && ValidThread(l.ctx.value)
             case SetUp(_) => l.phase.Entering? && l.ctx.Some? && ValidThread(l.ctx.value)
             case EntryReturns(_) => l.phase.InEntry? && l.ctx.Some?
             case RollBack => l.phase.Failing? && l.ctx.Some? && ValidThread(l.ctx.value)
             case TakeSnapshot(_) => l.phase.Woken?
             case CacheGeneration => l.phase.Caught?
             case Detach => l.ctx.Some? && ValidThread(l.ctx.value)
             case _ => true
  {
    match a
    case EnsureStart => if l.cached == s.generation then l else l.(phase := Woken(s.generation))
    case StartPass => l.(ctx := Some(ContextOf(l)), phase := Woken(l.cached))
    case TakeSnapshot(ok) =>
      if ok then l.(ctx := Some(ContextOf(l)), phase := Snapped(l.phase.generation, SnapshotOf(s.loaded, s.disabled)))
      else l.(phase := Caught(l.phase.generation), blind := true)
    case NotifyAttach(alloc) => Notify(l, alloc)
    case CacheGeneration => l.(cached := l.phase.generation, phase := Idle)
    case Begin(x) =>
      var th := ContextOf(l);
      if |s.loaded| + s.pending == MAX_LOADED_IMAGES then l.(ctx := Some(th))
         else l.(ctx := Some(th), phase := Entering(x, th))
    case SetUp(alloc) =>
      var x := l.phase.image;
      var (th, ok) := Initialized(l.ctx.value, x, ProcessAttach, alloc(x));
      l.(ctx := Some(th), phase := if ok then InEntry(x, l.phase.before) else Failing(x, l.phase.before, false))
    case EntryReturns(result) =>
      var x := l.phase.image;
      l.(ctx := Some(Logged(l.ctx.value, x.entry, Entry(x, ProcessAttach))),
         phase := if result then Idle else Failing(x, l.phase.before, true))
    case RollBack => l.(ctx := Some(RolledBack(l.ctx.value, l.phase.image, l.phase.called)), phase := Idle)
    case DisableCalls(_) => l
    case Detach => Detached(l, SnapshotOf(s.loaded, s.disabled))
    case Reset => NewLocal()
  }

  /** One step of thread t. */
  function Step(s: State, t: nat, a: Action, images: set<Image>): State
    requires Enabled(s, t, a, images)
  {
    var l := s.threads[t];
    var n := Acted(s, l, a);
    var next := s.(threads := s.threads[t := n]);
    match a
    case Begin(x) => if n.phase.Entering? then next.(pending := s.pending + 1, disabled := s.disabled - {x}) else next
    case SetUp(_) => if n.phase.Failing? then next.(pending := s.pending - 1) else next
    case EntryReturns(result) =>
      if result then
        next.(pending := s.pending - 1, loaded := s.loaded + [l.phase.image], generation := s.generation + 1)
      else next.(pending := s.pending - 1)
    case DisableCalls(x) =>
      if x.tls.None? && (Attaching(l.phase) == Some(x) || x in s.loaded) then next.(disabled := s.disabled + {x})
         else next
    case _ => next
  }

  /** n threads, nothing loaded; the generation starts at 1 so that no thread's zero matches. */
  function Start(n: nat): State { State([], 0, 1, {}, seq(n, _ => NewLocal())) }

  /** States some run of steps leads to. */
  ghost predicate Runs(s: State, run: seq<(nat, Action)>, images: set<Image>, end: State)
    decreases |run|
  {
    if run == [] then s == end
    else
      var n := |run| - 1;
      exists mid: State :: Runs(s, run[..n], images, mid) && Enabled(mid, run[n].0, run[n].1, images)
                           && end == Step(mid, run[n].0, run[n].1, images)
  }

  // ----- the invariant

  /** The images a program loads, and a way of counting each one's events. */
  datatype World = World(images: set<Image>, counts: Image -> Count)

  ghost predicate Sound(w: World) {
    forall x {:trigger w.counts(x)} :: x in w.images ==> Counts(w.counts(x), WeighFor(x))
  }

  function PendingCount(threads: seq<Local>): nat {
    if threads == [] then 0
    else PendingCount(threads[..|threads| - 1]) + (if Pending(threads[|threads| - 1].phase) then 1 else 0)
  }

  /**
   * No image is attached by two threads at once, none that is being attached is loaded yet, and no two of all these
   * share a TLS index.
   */
  predicate Exclusive(s: State, images: set<Image>) {
    && DistinctSlots(ImagesOf(s.loaded))
    && (forall t, u :: 0 <= t < u < |s.threads| ==> Disjoint(s.threads[t].phase, s.threads[u].phase))
    && (forall t :: 0 <= t < |s.threads| ==> Claims(s.loaded, s.threads[t].phase, images))
  }

  predicate Disjoint(p: Phase, q: Phase) {
    Attaching(p).Some? && Attaching(q).Some? ==>
      Attaching(p) != Attaching(q) && NoClash(Attaching(p).value, Attaching(q).value)
  }

  predicate Claims(loaded: seq<Image>, p: Phase, images: set<Image>) {
    Attaching(p).Some? ==>
      && Attaching(p).value in images && Attaching(p).value !in loaded
      && forall y :: y in loaded ==> NoClash(Attaching(p).value, y)
  }

  predicate Shared(s: State, images: set<Image>) {
    && NoDuplicates(s.loaded) && (forall x :: x in s.loaded ==> x in images)
    && s.generation == 1 + |s.loaded|
    && |s.loaded| + s.pending <= MAX_LOADED_IMAGES && s.pending == PendingCount(s.threads)
    && (forall x :: x in s.disabled ==> x.tls.None?)
  }

  predicate AttachedOn(l: Local, x: Image) { l.ctx.Some? && x in l.ctx.value.attached }

  /** The image's setup failed on this context. */
  predicate FailedOn(l: Local, x: Image) { exists f :: f in l.failed && f.image == x }

  /** An image is taken care of on a thread. */
  predicate Covered(l: Local, disabled: set<Image>, x: Image) {
    x in disabled || AttachedOn(l, x) || FailedOn(l, x)
  }

  /** Everything published up to a generation is. */
  predicate CoveredTo(loaded: seq<Image>, disabled: set<Image>, l: Local, generation: nat) {
    generation <= 1 + |loaded| && forall k :: 0 <= k < generation - 1 ==> Covered(l, disabled, loaded[k])
  }

  /** Only loaded images and the one being attached are attached. */
  predicate AttachedFrom(attached: seq<Image>, loaded: seq<Image>, own: Option<Image>) {
    forall x :: x in attached ==> x in loaded || own == Some(x)
  }

  ghost predicate Accounts(th: Thread, loaded: seq<Image>, w: World) {
    forall x :: x in w.images ==> AccountedFor(w.counts(x)(th.log), th.attached, x, x in loaded)
  }

  ghost predicate ThreadInv(th: Thread, loaded: seq<Image>, own: Option<Image>, w: World) {
    Sane(th) && AttachedFrom(th.attached, loaded, own) && Accounts(th, loaded, w)
  }

  /** The images a thread can have attached. */
  function Reach(loaded: seq<Image>, own: Option<Image>): set<Image> {
    ImagesOf(loaded) + (if own.Some? then {own.value} else {})
  }

  /** Rolling back now would leave the thread as it was when the load began. */
  predicate Restorable(th: Thread, x: Image, before: Thread) {
    && ValidThread(th)
    && RolledBack(th, x, false).attached == before.attached && RolledBack(th, x, false).slots == before.slots
  }

  predicate SnapshotFits(snapshot: seq<Loaded>, loaded: seq<Image>, disabled: set<Image>) {
    && |snapshot| <= |loaded|
    && forall k :: 0 <= k < |snapshot| ==>
         snapshot[k].image == loaded[k] && (snapshot[k].disabled ==> loaded[k] in disabled)
  }

  predicate PhaseInv(loaded: seq<Image>, disabled: set<Image>, l: Local) {
    match l.phase
    case Idle => true
    case Woken(g) => l.cached <= g <= 1 + |loaded|
    case Snapped(g, snapshot) => l.ctx.Some? && l.cached <= g <= 1 + |snapshot|
      && SnapshotFits(snapshot, loaded, disabled)
    case Caught(g) => l.cached <= g && Knows(loaded, disabled, l, g)
    case Entering(x, before) => l.ctx.Some? && l.ctx.value == before && x !in before.attached
    case InEntry(x, before) => l.ctx.Some? && Restorable(l.ctx.value, x, before) && x in l.ctx.value.attached
    case Failing(x, before, _) => l.ctx.Some? && Restorable(l.ctx.value, x, before)
  }

  /** What the detached part of a thread's life amounts to for one image. */
  predicate Closed(t: Tally) { t.told <= 1 && t.left <= 1 && t.taken == t.freed }

  /** Nothing published up to a generation is attached. */
  predicate BareTo(loaded: seq<Image>, l: Local, generation: nat) {
    generation <= 1 + |loaded| && forall k :: 0 <= k < generation - 1 ==> !AttachedOn(l, loaded[k])
  }

  /** The thread has nothing attached of what its cached generation counts. */
  predicate Bare(l: Local) { l.stage.Gone? || l.blind }

  /** What a generation seen by a pass stands for. */
  predicate Knows(loaded: seq<Image>, disabled: set<Image>, l: Local, generation: nat) {
    if Bare(l) then BareTo(loaded, l, generation) else CoveredTo(loaded, disabled, l, generation)
  }

  /** A detached context is still there, and its log up to the detach is closed. */
  ghost predicate PastInv(l: Local, w: World) {
    l.ctx.Some? && forall x :: x in w.images ==> Closed(w.counts(x)(l.past))
  }

  ghost predicate LocalInv(loaded: seq<Image>, disabled: set<Image>, l: Local, w: World) {
    && (l.ctx.Some? ==> ThreadInv(l.ctx.value, loaded, Attaching(l.phase), w))
    && PhaseInv(loaded, disabled, l) && AllNoBlock(l.failed) && Knows(loaded, disabled, l, l.cached)
    && (!l.stage.Live? ==> PastInv(l, w)) && (l.blind || l.ctx.None? ==> l.failed == {})
  }

  ghost predicate Inv(s: State, w: World) {
    && Shared(s, w.images) && Exclusive(s, w.images)
    && forall t :: 0 <= t < |s.threads| ==> LocalInv(s.loaded, s.disabled, s.threads[t], w)
  }

  // ----- what other threads do does not disturb a thread

  lemma {:induction false} ThreadKeeps(th: Thread, loaded: seq<Image>, more: seq<Image>, own: Option<Image>, w: World)
    requires ThreadInv(th, loaded, own, w) && loaded <= more
    ensures ThreadInv(th, more, own, w)
  {
    assert forall x :: x in loaded ==> x in more;
    forall x | x in w.images ensures AccountedFor(w.counts(x)(th.log), th.attached, x, x in more) {
      assert AccountedFor(w.counts(x)(th.log), th.attached, x, x in loaded);
    }
  }

  /** Nothing loaded is enabled again. */
  predicate DisabledKept(loaded: seq<Image>, disabled: set<Image>, next: set<Image>) {
    forall x :: x in loaded && x in disabled ==> x in next
  }

  lemma {:induction false} CoverKeeps(loaded: seq<Image>, more: seq<Image>, disabled: set<Image>, next: set<Image>,
                                      l: Local, g: nat)
    requires CoveredTo(loaded, disabled, l, g) && loaded <= more && DisabledKept(loaded, disabled, next)
    ensures CoveredTo(more, next, l, g)
  {
    forall k | 0 <= k < g - 1 ensures Covered(l, next, more[k]) {
      assert Covered(l, disabled, loaded[k]) && more[k] == loaded[k];
    }
  }

  lemma {:induction false} KnowsKeeps(loaded: seq<Image>, more: seq<Image>, disabled: set<Image>, next: set<Image>,
                                      l: Local, g: nat)
    requires Knows(loaded, disabled, l, g) && loaded <= more && DisabledKept(loaded, disabled, next)
    ensures Knows(more, next, l, g)
  {
    if Bare(l) {
      forall k | 0 <= k < g - 1 ensures !AttachedOn(l, more[k]) {
        assert !AttachedOn(l, loaded[k]) && more[k] == loaded[k];
      }
    } else {
      CoverKeeps(loaded, more, disabled, next, l, g);
    }
  }

  lemma {:induction false} LocalKeeps(loaded: seq<Image>, more: seq<Image>, disabled: set<Image>, next: set<Image>,
                                      l: Local, w: World)
    requires LocalInv(loaded, disabled, l, w) && loaded <= more && DisabledKept(loaded, disabled, next)
    ensures LocalInv(more, next, l, w)
  {
    if l.ctx.Some? {
      ThreadKeeps(l.ctx.value, loaded, more, Attaching(l.phase), w);
    }
    KnowsKeeps(loaded, more, disabled, next, l, l.cached);
    if l.phase.Caught? {
      KnowsKeeps(loaded, more, disabled, next, l, l.phase.generation);
    }
  }

  // ----- what a step does to its own thread

  lemma {:induction false} ContextInv(l: Local, loaded: seq<Image>, w: World)
    requires Sound(w) && (l.ctx.Some? ==> ThreadInv(l.ctx.value, loaded, None, w))
    ensures ThreadInv(ContextOf(l), loaded, None, w)
  {
    if l.ctx.None? {
      EmptyInv(ContextOf(l), loaded, None, w);
    }
  }

  /** The same published images are attached. */
  predicate SameOn(loaded: seq<Image>, before: seq<Image>, after: seq<Image>) {
    forall y :: y in loaded ==> (y in before <==> y in after)
  }

  /** A step that leaves the published images' attachments as they are. */
  lemma {:induction false} KnowsSame(loaded: seq<Image>, disabled: set<Image>, l: Local, n: Local, g: nat)
    requires Knows(loaded, disabled, l, g) && n.failed == l.failed && n.ctx.Some?
    requires n.blind == l.blind && n.stage == l.stage
    requires l.ctx.Some? ==> SameOn(loaded, l.ctx.value.attached, n.ctx.value.attached)
    requires l.ctx.None? ==> n.ctx.value.attached == []
    ensures Knows(loaded, disabled, n, g)
  {
    forall k | 0 <= k < g - 1
      ensures Bare(l) ==> !AttachedOn(n, loaded[k])
      ensures !Bare(l) ==> Covered(n, disabled, loaded[k])
    {
      assert if Bare(l) then !AttachedOn(l, loaded[k]) else Covered(l, disabled, loaded[k]);
    }
  }

  lemma {:induction false} PassStarted(loaded: seq<Image>, disabled: set<Image>, l: Local, w: World)
    requires Sound(w) && LocalInv(loaded, disabled, l, w) && l.phase.Idle?
    ensures LocalInv(loaded, disabled, l.(ctx := Some(ContextOf(l)), phase := Woken(l.cached)), w)
  {
    ContextInv(l, loaded, w);
    KnowsSame(loaded, disabled, l, l.(ctx := Some(ContextOf(l)), phase := Woken(l.cached)), l.cached);
  }

  lemma {:induction false} SnapshotTaken(loaded: seq<Image>, disabled: set<Image>, l: Local, w: World)
    requires Sound(w) && LocalInv(loaded, disabled, l, w) && l.phase.Woken?
    ensures var snapped := Snapped(l.phase.generation, SnapshotOf(loaded, disabled));
            LocalInv(loaded, disabled, l.(ctx := Some(ContextOf(l)), phase := snapped), w)
  {
    ContextInv(l, loaded, w);
    var n := l.(ctx := Some(ContextOf(l)), phase := Snapped(l.phase.generation, SnapshotOf(loaded, disabled)));
    KnowsSame(loaded, disabled, l, n, l.cached);
  }

  lemma {:induction false} ContextMissed(loaded: seq<Image>, disabled: set<Image>, l: Local, w: World)
    requires LocalInv(loaded, disabled, l, w) && l.phase.Woken? && l.ctx.None?
    ensures LocalInv(loaded, disabled, l.(phase := Caught(l.phase.generation), blind := true), w)
  {
  }

  lemma {:induction false} FewImages(loaded: seq<Image>)
    ensures |ImagesOf(loaded)| <= |loaded|
  {
    if loaded == [] {
      assert ImagesOf(loaded) == {};
    } else {
      var n := |loaded| - 1;
      FewImages(loaded[..n]);
      assert loaded == loaded[..n] + [loaded[n]];
      assert ImagesOf(loaded) == ImagesOf(loaded[..n]) + {loaded[n]};
    }
  }

  lemma {:induction false} SnapshotIn(snapshot: seq<Loaded>, loaded: seq<Image>, disabled: set<Image>)
    requires SnapshotFits(snapshot, loaded, disabled)
    ensures AllIn(snapshot, ImagesOf(loaded))
  {
    forall i | 0 <= i < |snapshot| ensures snapshot[i].image in ImagesOf(loaded) {
      assert snapshot[i].image == loaded[i];
    }
  }

  lemma {:induction false} ReachIsConsistent(th: Thread, loaded: seq<Image>, own: Option<Image>, w: World)
    requires ThreadInv(th, loaded, own, w) && DistinctSlots(Reach(loaded, own))
    ensures Consistent(th, Reach(loaded, own))
  {
    SaneIsConsistent(th, Reach(loaded, own));
  }

  lemma {:induction false} NotifiedThread(th: Thread, loaded: seq<Image>, disabled: set<Image>, snapshot: seq<Loaded>,
                                          alloc: Allocation, w: World)
    requires Sound(w) && ThreadInv(th, loaded, None, w) && SnapshotFits(snapshot, loaded, disabled)
    requires |loaded| <= MAX_LOADED_IMAGES && DistinctSlots(ImagesOf(loaded))
    ensures ThreadInv(AttachAll(th, snapshot, alloc), loaded, None, w)
    ensures var r, failures := AttachAll(th, snapshot, alloc), FailuresIn(th, snapshot, alloc);
            && (forall i :: 0 <= i < |snapshot| ==> Settled(r, snapshot[i], alloc(snapshot[i].image), failures))
            && AllNoBlock(failures)
  {
    var bound := ImagesOf(loaded);
    FewImages(loaded);
    SnapshotIn(snapshot, loaded, disabled);
    assert Roomy(th, bound);
    SaneIsConsistent(th, bound);
    AttachAllKeeps(th, snapshot, alloc, bound);
    AttachAllOwned(th, snapshot, alloc, bound);
    ConsistentIsSane(AttachAll(th, snapshot, alloc), bound);
    NotifiedFrom(th.attached, AttachAll(th, snapshot, alloc).attached, loaded, disabled, snapshot);
    NotifiedAccounts(th, loaded, disabled, snapshot, alloc, w);
    AttachAllSettles(th, snapshot, alloc, bound, bound);
  }

  lemma {:induction false} NotifiedFrom(before: seq<Image>, after: seq<Image>, loaded: seq<Image>,
                                        disabled: set<Image>, snapshot: seq<Loaded>)
    requires AttachedFrom(before, loaded, None) && Grown(before, after, snapshot)
             && SnapshotFits(snapshot, loaded, disabled)
    ensures AttachedFrom(after, loaded, None)
  {
    forall x | x in after ensures x in loaded {
      if x !in before {
        var i :| 0 <= i < |snapshot| && snapshot[i].image == x;
        assert loaded[i] == x;
      }
    }
  }

  lemma {:induction false} NotifiedAccounts(th: Thread, loaded: seq<Image>, disabled: set<Image>,
                                            snapshot: seq<Loaded>, alloc: Allocation, w: World)
    requires Sound(w) && ThreadInv(th, loaded, None, w) && SnapshotFits(snapshot, loaded, disabled)
    requires Roomy(th, ImagesOf(loaded)) && AllIn(snapshot, ImagesOf(loaded))
    requires Consistent(th, ImagesOf(loaded)) && DistinctSlots(ImagesOf(loaded))
    ensures Accounts(AttachAll(th, snapshot, alloc), loaded, w)
  {
    var r := AttachAll(th, snapshot, alloc);
    forall x | x in w.images ensures AccountedFor(w.counts(x)(r.log), r.attached, x, x in loaded) {
      if x !in loaded {
        forall i | 0 <= i < |snapshot| ensures snapshot[i].image != x {
          assert snapshot[i].image == loaded[i];
        }
      }
      AttachAllAccounts(w.counts(x), th, snapshot, alloc, ImagesOf(loaded), ImagesOf(loaded), x, x in loaded);
    }
  }

  /** A pass takes care of everything in its snapshot. */
  lemma {:induction false} NotifiedCovers(loaded: seq<Image>, disabled: set<Image>, l: Local, alloc: Allocation, g: nat)
    requires l.phase.Snapped? && l.ctx.Some? && ValidThread(l.ctx.value)
    requires SnapshotFits(l.phase.snapshot, loaded, disabled) && g <= 1 + |l.phase.snapshot|
    requires var r, failures := AttachAll(l.ctx.value, l.phase.snapshot, alloc),
             FailuresIn(l.ctx.value, l.phase.snapshot, alloc);
             forall i :: 0 <= i < |l.phase.snapshot| ==>
               Settled(r, l.phase.snapshot[i], alloc(l.phase.snapshot[i].image), failures)
    ensures CoveredTo(loaded, disabled, Notify(l, alloc), g)
  {
    var n, snapshot := Notify(l, alloc), l.phase.snapshot;
    var failures := FailuresIn(l.ctx.value, snapshot, alloc);
    forall k | 0 <= k < g - 1 ensures Covered(n, disabled, loaded[k]) {
      var x, block: nat := snapshot[k], alloc(snapshot[k].image);
      assert Settled(n.ctx.value, x, block, failures) && x.image == loaded[k];
      if Failure(x.image, block) in failures {
        assert Failure(x.image, block) in n.failed;
      }
    }
  }

  lemma {:induction false} Notified(loaded: seq<Image>, disabled: set<Image>, l: Local, alloc: Allocation, w: World)
    requires Sound(w) && LocalInv(loaded, disabled, l, w) && l.phase.Snapped?
    requires |loaded| <= MAX_LOADED_IMAGES && DistinctSlots(ImagesOf(loaded))
    ensures LocalInv(loaded, disabled, Notify(l, alloc), w)
  {
    NotifiedThread(l.ctx.value, loaded, disabled, l.phase.snapshot, alloc, w);
    NotifiedCovers(loaded, disabled, l, alloc, l.phase.generation);
    NotifiedCovers(loaded, disabled, l, alloc, l.cached);
  }

  // ----- loading

  lemma {:induction false} SetUpThread(th: Thread, x: Image, block: nat, loaded: seq<Image>, w: World)
    requires Sound(w) && ThreadInv(th, loaded, Some(x), w) && DistinctSlots(Reach(loaded, Some(x))) && x !in th.attached
    ensures var (r, ok) := Initialized(th, x, ProcessAttach, block);
            && ThreadInv(r, loaded, Some(x), w) && Restorable(r, x, th) && (ok ==> x in r.attached)
            && forall y :: y != x ==> (y in th.attached <==> y in r.attached)
  {
    var r, images := Initialized(th, x, ProcessAttach, block).0, Reach(loaded, Some(x));
    ReachIsConsistent(th, loaded, Some(x), w);
    SetupIs(th, x, ProcessAttach, block, images);
    SetupKeeps(th, x, ProcessAttach, block, images);
    SetupOwned(th, x, ProcessAttach, block, images);
    ConsistentIsSane(r, images);
    FailedAttachRestores(th, x, block, false, images);
    forall y | y in w.images ensures AccountedFor(w.counts(y)(r.log), r.attached, y, y in loaded) {
      SetupAccounts(w.counts(y), th, x, block, images, y, y in loaded);
    }
  }

  /** The event of the entry point's DLL_PROCESS_ATTACH call is in no tally. */
  lemma {:induction false} EntryLogged(th: Thread, x: Image, called: bool, loaded: seq<Image>, own: Option<Image>,
                                       w: World)
    requires Sound(w) && ThreadInv(th, loaded, own, w)
    ensures ThreadInv(Logged(th, called, Entry(x, ProcessAttach)), loaded, own, w)
  {
    var r := Logged(th, called, Entry(x, ProcessAttach));
    forall y | y in w.images ensures AccountedFor(w.counts(y)(r.log), r.attached, y, y in loaded) {
      assert AccountedFor(w.counts(y)(th.log), th.attached, y, y in loaded);
      JoinTwo(w.counts(y), WeighFor(y), th.log, Maybe(called, Entry(x, ProcessAttach)));
      OneTally(w.counts(y), WeighFor(y), called, Entry(x, ProcessAttach), Nothing());
      assert th.log + [] == th.log;
    }
  }

  lemma {:induction false} StillRestorable(th: Thread, r: Thread, x: Image, before: Thread)
    requires Restorable(th, x, before) && ValidThread(r) && r.attached == th.attached && r.slots == th.slots
    ensures Restorable(r, x, before)
  {
  }

  lemma {:induction false} RolledBackThread(th: Thread, x: Image, called: bool, before: Thread, loaded: seq<Image>,
                                            w: World)
    requires Sound(w) && ThreadInv(th, loaded, Some(x), w) && DistinctSlots(Reach(loaded, Some(x))) && x !in loaded
    ensures ThreadInv(RolledBack(th, x, called), loaded, None, w)
    ensures SameOn(loaded, th.attached, RolledBack(th, x, called).attached)
  {
    var r, images := RolledBack(th, x, called), Reach(loaded, Some(x));
    ReachIsConsistent(th, loaded, Some(x), w);
    RollbackIs(th, x, called, images);
    RollbackKeeps(th, x, called, images);
    RollbackOwned(th, x, called);
    ConsistentIsSane(r, images);
    RemovedIs(th.attached, x);
    forall y | y in w.images ensures AccountedFor(w.counts(y)(r.log), r.attached, y, y in loaded) {
      RollbackAccounts(w.counts(y), th, x, called, images, y, y in loaded);
    }
  }

  lemma {:induction false} OwnMore(th: Thread, loaded: seq<Image>, own: Option<Image>, w: World)
    requires ThreadInv(th, loaded, None, w)
    ensures ThreadInv(th, loaded, own, w)
  {
  }

  lemma {:induction false} Begun(loaded: seq<Image>, disabled: set<Image>, l: Local, x: Image, enters: bool, w: World)
    requires Sound(w) && LocalInv(loaded, disabled, l, w) && l.phase.Idle? && x !in loaded
    ensures var n := if enters then l.(ctx := Some(ContextOf(l)), phase := Entering(x, ContextOf(l)))
            else l.(ctx := Some(ContextOf(l)));
            LocalInv(loaded, disabled, n, w)
  {
    ContextInv(l, loaded, w);
    OwnMore(ContextOf(l), loaded, Some(x), w);
    var n := if enters then l.(ctx := Some(ContextOf(l)), phase := Entering(x, ContextOf(l)))
      else l.(ctx := Some(ContextOf(l)));
    KnowsSame(loaded, disabled, l, n, l.cached);
  }

  lemma {:induction false} SetUpDone(loaded: seq<Image>, disabled: set<Image>, l: Local, alloc: Allocation, w: World)
    requires Sound(w) && LocalInv(loaded, disabled, l, w) && l.phase.Entering? && l.phase.image !in loaded
    requires DistinctSlots(Reach(loaded, Some(l.phase.image)))
    ensures var (th, ok) := Initialized(l.ctx.value, l.phase.image, ProcessAttach, alloc(l.phase.image));
            var x, before := l.phase.image, l.phase.before;
            var next := l.(ctx := Some(th), phase := if ok then InEntry(x, before) else Failing(x, before, false));
            LocalInv(loaded, disabled, next, w)
  {
    var x := l.phase.image;
    var (th, ok) := Initialized(l.ctx.value, x, ProcessAttach, alloc(x));
    SetUpThread(l.ctx.value, x, alloc(x), loaded, w);
    var n := l.(ctx := Some(th), phase := if ok then InEntry(x, l.phase.before) else Failing(x, l.phase.before, false));
    KnowsSame(loaded, disabled, l, n, l.cached);
  }

  lemma {:induction false} EntryFailed(loaded: seq<Image>, disabled: set<Image>, l: Local, w: World)
    requires Sound(w) && LocalInv(loaded, disabled, l, w) && l.phase.InEntry?
    ensures var th := Logged(l.ctx.value, l.phase.image.entry, Entry(l.phase.image, ProcessAttach));
            LocalInv(loaded, disabled, l.(ctx := Some(th), phase := Failing(l.phase.image, l.phase.before, true)), w)
  {
    var x := l.phase.image;
    var th := Logged(l.ctx.value, x.entry, Entry(x, ProcessAttach));
    EntryLogged(l.ctx.value, x, x.entry, loaded, Some(x), w);
    StillRestorable(l.ctx.value, th, x, l.phase.before);
    var n := l.(ctx := Some(th), phase := Failing(x, l.phase.before, true));
    KnowsSame(loaded, disabled, l, n, l.cached);
  }

  lemma {:induction false} EntrySucceeded(loaded: seq<Image>, disabled: set<Image>, l: Local, w: World)
    requires Sound(w) && LocalInv(loaded, disabled, l, w) && l.phase.InEntry?
    ensures var th := Logged(l.ctx.value, l.phase.image.entry, Entry(l.phase.image, ProcessAttach));
            LocalInv(loaded + [l.phase.image], disabled, l.(ctx := Some(th), phase := Idle), w)
  {
    var x, more := l.phase.image, loaded + [l.phase.image];
    var th := Logged(l.ctx.value, x.entry, Entry(x, ProcessAttach));
    EntryLogged(l.ctx.value, x, x.entry, loaded, Some(x), w);
    ThreadKeeps(th, loaded, more, Some(x), w);
    assert x in more && AttachedFrom(th.attached, more, None);
    KnowsKeeps(loaded, more, disabled, disabled, l, l.cached);
    var n := l.(ctx := Some(th), phase := Idle);
    KnowsSame(more, disabled, l, n, l.cached);
  }

  lemma {:induction false} RollBackDone(loaded: seq<Image>, disabled: set<Image>, l: Local, w: World)
    requires Sound(w) && LocalInv(loaded, disabled, l, w) && l.phase.Failing? && l.phase.image !in loaded
    requires DistinctSlots(Reach(loaded, Some(l.phase.image)))
    ensures var th := RolledBack(l.ctx.value, l.phase.image, l.phase.called);
            LocalInv(loaded, disabled, l.(ctx := Some(th), phase := Idle), w)
  {
    RolledBackThread(l.ctx.value, l.phase.image, l.phase.called, l.phase.before, loaded, w);
    var n := l.(ctx := Some(RolledBack(l.ctx.value, l.phase.image, l.phase.called)), phase := Idle);
    KnowsSame(loaded, disabled, l, n, l.cached);
  }

  // ----- exit

  lemma {:induction false} ExitReady(th: Thread, loaded: seq<Image>, disabled: set<Image>, images: set<Image>)
    requires NoDuplicates(loaded) && AttachedFrom(th.attached, loaded, None) && forall x :: x in loaded ==> x in images
    ensures var s := SnapshotOf(loaded, disabled); AllIn(s, images) && DistinctImages(s) && Within(th.attached, s)
  {
    var s := SnapshotOf(loaded, disabled);
    forall x | x in th.attached ensures exists i :: 0 <= i < |s| && s[i].image == x {
      var i :| 0 <= i < |loaded| && loaded[i] == x;
      assert s[i].image == x;
    }
  }

  lemma {:induction false} FindIn(loaded: seq<Image>, disabled: set<Image>, x: Image)
    ensures Find(SnapshotOf(loaded, disabled), x) == if x in loaded then Some(Loaded(x, x in disabled)) else None
  {
    if loaded != [] {
      var n := |loaded| - 1;
      assert SnapshotOf(loaded, disabled)[..n] == SnapshotOf(loaded[..n], disabled);
      FindIn(loaded[..n], disabled, x);
      assert loaded == loaded[..n] + [loaded[n]];
    }
  }

  /** What a thread's life up to the detach amounts to for one image. */
  predicate LifeTally(x: Image, attached: bool, disabled: bool, t: Tally) {
    && t.told <= 1 && t.taken == t.freed
    && t.left == (if attached && !disabled && x.entry then 1 else 0)
  }

  lemma {:induction false} LifeCount(tally: Count, th: Thread, loaded: seq<Image>, disabled: set<Image>, x: Image)
    requires Counts(tally, WeighFor(x)) && NoDuplicates(loaded) && AttachedFrom(th.attached, loaded, None)
    requires AccountedFor(tally(th.log), th.attached, x, x in loaded)
    ensures LifeTally(x, x in th.attached, x in disabled,
                      tally(th.log + ExitLog(th.attached, SnapshotOf(loaded, disabled))))
  {
    var s := SnapshotOf(loaded, disabled);
    FindIn(loaded, disabled, x);
    ExitTally(tally, th.attached, s, x);
    JoinTwo(tally, WeighFor(x), th.log, ExitLog(th.attached, s));
  }

  predicate AllZero(slots: seq<nat>) { forall i :: 0 <= i < |slots| ==> slots[i] == 0 }

  /** Detaching empties the context and closes its log. */
  lemma {:induction false} DetachClears(th: Thread, loaded: seq<Image>, disabled: set<Image>, w: World)
    requires Sound(w) && ThreadInv(th, loaded, None, w) && NoDuplicates(loaded) && DistinctSlots(ImagesOf(loaded))
    ensures var snapshot := SnapshotOf(loaded, disabled);
            var after := DetachAll(th, snapshot);
            && after.attached == [] && after.log == th.log + ExitLog(th.attached, snapshot) && AllZero(after.slots)
            && forall x :: x in w.images ==> LifeTally(x, x in th.attached, x in disabled, w.counts(x)(after.log))
  {
    var snapshot, images := SnapshotOf(loaded, disabled), ImagesOf(loaded);
    SaneIsConsistent(th, images);
    ExitReady(th, loaded, disabled, images);
    ExitIs(th, snapshot, images);
    DetachAllOwned(th, snapshot, images);
    var after := DetachAll(th, snapshot);
    forall x | x in w.images ensures LifeTally(x, x in th.attached, x in disabled, w.counts(x)(after.log)) {
      LifeCount(w.counts(x), th, loaded, disabled, x);
    }
  }

  /** An empty context with no log. */
  lemma {:induction false} EmptyInv(th: Thread, loaded: seq<Image>, own: Option<Image>, w: World)
    requires Sound(w) && ValidThread(th) && th.attached == [] && th.log == [] && AllZero(th.slots)
    ensures ThreadInv(th, loaded, own, w)
  {
    forall x | x in w.images ensures AccountedFor(w.counts(x)([]), [], x, x in loaded) {
      NoneTally(w.counts(x), x);
    }
  }

  lemma {:induction false} DetachDone(loaded: seq<Image>, disabled: set<Image>, l: Local, w: World)
    requires Sound(w) && LocalInv(loaded, disabled, l, w) && l.phase.Idle? && l.stage.Live? && l.ctx.Some?
    requires NoDuplicates(loaded) && DistinctSlots(ImagesOf(loaded))
    ensures LocalInv(loaded, disabled, Detached(l, SnapshotOf(loaded, disabled)), w)
  {
    DetachClears(l.ctx.value, loaded, disabled, w);
    var n := Detached(l, SnapshotOf(loaded, disabled));
    EmptyInv(n.ctx.value, loaded, None, w);
    forall x | x in w.images ensures Closed(w.counts(x)(n.past)) {
      assert LifeTally(x, x in l.ctx.value.attached, x in disabled, w.counts(x)(n.past));
    }
  }

  // ----- every step keeps the invariant

  /** What the acting thread can have attached has distinct indices. */
  lemma {:induction false} ReachDistinct(loaded: seq<Image>, p: Phase, images: set<Image>)
    requires DistinctSlots(ImagesOf(loaded)) && Claims(loaded, p, images)
    ensures DistinctSlots(Reach(loaded, Attaching(p)))
  {
  }

  /** The acting thread, before the shared state changes. */
  lemma {:induction false} ActorKeeps(s: State, t: nat, a: Action, w: World)
    requires Sound(w) && Inv(s, w) && Enabled(s, t, a, w.images)
    ensures var n := Acted(s, s.threads[t], a);
            if a.EntryReturns? && a.result then LocalInv(s.loaded + [s.threads[t].phase.image], s.disabled, n, w)
            else LocalInv(s.loaded, s.disabled, n, w)
  {
    var l := s.threads[t];
    assert LocalInv(s.loaded, s.disabled, l, w);
    ReachDistinct(s.loaded, l.phase, w.images);
    match a {
      case EnsureStart =>
      case StartPass => PassStarted(s.loaded, s.disabled, l, w);
      case TakeSnapshot(ok) => if ok { SnapshotTaken(s.loaded, s.disabled, l, w); }
        else { ContextMissed(s.loaded, s.disabled, l, w); }
      case NotifyAttach(alloc) => Notified(s.loaded, s.disabled, l, alloc, w);
      case CacheGeneration =>
      case Begin(x) => Begun(s.loaded, s.disabled, l, x, |s.loaded| + s.pending != MAX_LOADED_IMAGES, w);
      case SetUp(alloc) => assert Attaching(l.phase).Some?; SetUpDone(s.loaded, s.disabled, l, alloc, w);
      case EntryReturns(result) => if result { EntrySucceeded(s.loaded, s.disabled, l, w); }
        else { EntryFailed(s.loaded, s.disabled, l, w); }
      case RollBack => RollBackDone(s.loaded, s.disabled, l, w);
      case DisableCalls(_) =>
      case Detach => DetachDone(s.loaded, s.disabled, l, w);
      case Reset =>
    }
  }

  /** The list only grows and nothing loaded is enabled again. */
  lemma {:induction false} SharedMoves(s: State, t: nat, a: Action, images: set<Image>)
    requires Enabled(s, t, a, images)
    ensures var n := Step(s, t, a, images);
            && s.loaded <= n.loaded && DisabledKept(s.loaded, s.disabled, n.disabled)
            && n.threads == s.threads[t := Acted(s, s.threads[t], a)]
            && n.loaded == (if a.EntryReturns? && a.result then s.loaded + [s.threads[t].phase.image] else s.loaded)
  {
  }

  lemma {:induction false} LocalsKeep(s: State, t: nat, a: Action, w: World)
    requires Sound(w) && Inv(s, w) && Enabled(s, t, a, w.images)
    ensures var n := Step(s, t, a, w.images); forall u :: 0 <= u < |n.threads| ==>
            LocalInv(n.loaded, n.disabled, n.threads[u], w)
  {
    var n := Step(s, t, a, w.images);
    SharedMoves(s, t, a, w.images);
    ActorKeeps(s, t, a, w);
    forall u | 0 <= u < |n.threads| ensures LocalInv(n.loaded, n.disabled, n.threads[u], w) {
      if u == t {
        var from := if a.EntryReturns? && a.result then s.loaded + [s.threads[t].phase.image] else s.loaded;
        LocalKeeps(from, n.loaded, s.disabled, n.disabled, n.threads[t], w);
      } else {
        LocalKeeps(s.loaded, n.loaded, s.disabled, n.disabled, s.threads[u], w);
      }
    }
  }

  lemma {:induction false} CountUpdate(threads: seq<Local>, t: nat, l: Local)
    requires t < |threads|
    ensures PendingCount(threads[t := l]) + (if Pending(threads[t].phase) then 1 else 0)
            == PendingCount(threads) + (if Pending(l.phase) then 1 else 0)
  {
    var n := |threads| - 1;
    if t == n {
      assert threads[t := l][..n] == threads[..n];
    } else {
      assert threads[t := l][..n] == threads[..n][t := l];
      CountUpdate(threads[..n], t, l);
    }
  }

  /** How the acting thread's claim on an image changes. */
  lemma {:induction false} OwnMoves(s: State, t: nat, a: Action, images: set<Image>)
    requires Enabled(s, t, a, images)
    ensures var l, n := s.threads[t], Acted(s, s.threads[t], a);
            && (Attaching(n.phase) == Attaching(l.phase) || Attaching(n.phase).None?
                || (a.Begin? && Attaching(n.phase) == Some(a.image)))
            && (a.EntryReturns? && a.result ==> Attaching(n.phase).None?)
            && (Pending(n.phase) <==> if a.Begin? then n.phase.Entering?
                                     else if a.SetUp? then !n.phase.Failing?
                                     else Pending(l.phase) && !a.EntryReturns?)
  {
  }

  lemma {:induction false} SharedKeeps(s: State, t: nat, a: Action, w: World)
    requires Shared(s, w.images) && Exclusive(s, w.images) && Enabled(s, t, a, w.images)
    ensures Shared(Step(s, t, a, w.images), w.images)
  {
    var l, n := s.threads[t], Acted(s, s.threads[t], a);
    CountUpdate(s.threads, t, n);
    OwnMoves(s, t, a, w.images);
    if a.EntryReturns? && a.result {
      var x := l.phase.image;
      assert Attaching(l.phase) == Some(x);
      assert x !in s.loaded && x in w.images;
    }
  }

  lemma {:induction false} ExclusiveKeeps(s: State, t: nat, a: Action, w: World)
    requires Exclusive(s, w.images) && Enabled(s, t, a, w.images)
    ensures Exclusive(Step(s, t, a, w.images), w.images)
  {
    var n := Step(s, t, a, w.images);
    SharedMoves(s, t, a, w.images);
    OwnMoves(s, t, a, w.images);
    if a.EntryReturns? && a.result {
      PublishedDistinct(s, t, w.images);
    }
    forall u | 0 <= u < |n.threads| ensures Claims(n.loaded, n.threads[u].phase, w.images) {
      ClaimKeeps(s, t, a, u, w.images);
    }
    forall u, v | 0 <= u < v < |n.threads| ensures Disjoint(n.threads[u].phase, n.threads[v].phase) {
      assert Disjoint(s.threads[u].phase, s.threads[v].phase);
    }
  }

  lemma {:induction false} PublishedDistinct(s: State, t: nat, images: set<Image>)
    requires Exclusive(s, images) && t < |s.threads| && s.threads[t].phase.InEntry?
    ensures DistinctSlots(ImagesOf(s.loaded + [s.threads[t].phase.image]))
  {
    var x := s.threads[t].phase.image;
    assert Claims(s.loaded, s.threads[t].phase, images);
    assert forall y :: y in ImagesOf(s.loaded + [x]) <==> y in s.loaded || y == x;
  }

  lemma {:induction false} ClaimKeeps(s: State, t: nat, a: Action, u: nat, images: set<Image>)
    requires Exclusive(s, images) && Enabled(s, t, a, images) && u < |s.threads|
    ensures var n := Step(s, t, a, images); Claims(n.loaded, n.threads[u].phase, images)
  {
    SharedMoves(s, t, a, images);
    OwnMoves(s, t, a, images);
    assert Claims(s.loaded, s.threads[u].phase, images);
    if u < t {
      assert Disjoint(s.threads[u].phase, s.threads[t].phase);
    } else if t < u {
      assert Disjoint(s.threads[t].phase, s.threads[u].phase);
    }
  }

  lemma {:induction false} StepKeeps(s: State, t: nat, a: Action, w: World)
    requires Sound(w) && Inv(s, w) && Enabled(s, t, a, w.images)
    ensures Inv(Step(s, t, a, w.images), w)
  {
    LocalsKeep(s, t, a, w);
    SharedKeeps(s, t, a, w);
    ExclusiveKeeps(s, t, a, w);
  }

  lemma {:induction false} StartInv(n: nat, w: World)
    ensures Inv(Start(n), w)
  {
    NonePending(Start(n).threads);
  }

  lemma {:induction false} NonePending(threads: seq<Local>)
    requires forall t :: 0 <= t < |threads| ==> threads[t].phase.Idle?
    ensures PendingCount(threads) == 0
  {
    if threads != [] {
      NonePending(threads[..|threads| - 1]);
    }
  }

  /** Every state any run reaches, whatever the interleaving, satisfies the invariant. */
  lemma {:induction false} RunKeeps(n: nat, run: seq<(nat, Action)>, end: State, w: World)
    requires Sound(w) && Runs(Start(n), run, w.images, end)
    ensures Inv(end, w)
    decreases |run|
  {
    if run == [] {
      StartInv(n, w);
    } else {
      var k := |run| - 1;
      var mid: State :| Runs(Start(n), run[..k], w.images, mid) && Enabled(mid, run[k].0, run[k].1, w.images)
                        && end == Step(mid, run[k].0, run[k].1, w.images);
      RunKeeps(n, run[..k], mid, w);
      StepKeeps(mid, run[k].0, run[k].1, w);
    }
  }

  /** The counting the invariant is stated with. */
  function WorldOf(images: set<Image>): World { World(images, CountOf) }

  lemma {:induction false} WorldSound(images: set<Image>)
    ensures Sound(WorldOf(images))
  {
    forall x | x in images ensures Counts(CountOf(x), WeighFor(x)) {
      CountsHolds(x);
    }
  }

  // ----- what follows

  /** The thread's setup of published images is complete: each attached, with notifications disabled, or failed. */
  predicate AllCovered(s: State, t: nat)
    requires t < |s.threads|
  {
    forall x :: x in s.loaded ==> Covered(s.threads[t], s.disabled, x)
  }

  /** Without being attached, there is nothing to do for the image. */
  predicate Excused(l: Local, disabled: set<Image>, x: Image) { x in disabled || FailedOn(l, x) }

  /**
   * The fast path, in every reachable state: when a thread's cached generation is the current one and its last pass got
   * a context, every published image is attached on it, or has notifications disabled, or its setup failed on this
   * context, by an index out of range or for want of a block; unless the thread is draining its FLS callbacks.
   */
  lemma {:induction false} FastPathSound(n: nat, run: seq<(nat, Action)>, end: State, images: set<Image>, t: nat)
    requires Runs(Start(n), run, images, end) && t < |end.threads| && end.threads[t].cached == end.generation
    ensures var l := end.threads[t];
            && (!Bare(l) ==> AllCovered(end, t))
            && (Bare(l) ==> forall x :: x in end.loaded ==> !AttachedOn(l, x))
            && AllNoBlock(l.failed) && (l.blind ==> l.failed == {})
  {
    WorldSound(images);
    RunKeeps(n, run, end, WorldOf(images));
    var l := end.threads[t];
    assert LocalInv(end.loaded, end.disabled, l, WorldOf(images));
    forall x | x in end.loaded ensures if Bare(l) then !AttachedOn(l, x) else Covered(l, end.disabled, x) {
      var k :| 0 <= k < |end.loaded| && end.loaded[k] == x;
      assert if Bare(l) then !AttachedOn(l, end.loaded[k]) else Covered(l, end.disabled, end.loaded[k]);
    }
  }

  /** Whether the last pass of thread t that ended in this run got no context; a pass of a new context starts over. */
  predicate Blind(run: seq<(nat, Action)>, t: nat) {
    run != [] &&
    var (u, a) := run[|run| - 1];
    if u == t && a.TakeSnapshot? && !a.gotContext then true
    else if u == t && (a.NotifyAttach? || a.Reset?) then false
    else Blind(run[..|run| - 1], t)
  }

  lemma {:induction false} BlindIs(n: nat, run: seq<(nat, Action)>, end: State, images: set<Image>, t: nat)
    requires Runs(Start(n), run, images, end) && t < |end.threads|
    ensures end.threads[t].blind <==> Blind(run, t)
    decreases |run|
  {
    if run != [] {
      var k := |run| - 1;
      var mid: State :| Runs(Start(n), run[..k], images, mid) && Enabled(mid, run[k].0, run[k].1, images)
                        && end == Step(mid, run[k].0, run[k].1, images);
      SharedMoves(mid, run[k].0, run[k].1, images);
      BlindIs(n, run[..k], mid, images, t);
    }
  }

  /**
   * When the fast path is right, exactly: in every reachable state in which a thread's cached generation is the current
   * one, every published image is attached, disabled or failed on it if and only if
   * - the thread's last pass got a context and it is not draining, or
   * - its last pass got no context, and every published image has notifications disabled, or
   * - it is draining, and every published image has notifications disabled or failed its setup before the detach.
   */
  lemma {:induction false} FastPathExactly(n: nat, run: seq<(nat, Action)>, end: State, images: set<Image>, t: nat)
    requires Runs(Start(n), run, images, end) && t < |end.threads| && end.threads[t].cached == end.generation
    ensures var l := end.threads[t];
            AllCovered(end, t) <==>
            if Blind(run, t) then forall x :: x in end.loaded ==> x in end.disabled
            else !l.stage.Gone? || forall x :: x in end.loaded ==> Excused(l, end.disabled, x)
  {
    FastPathSound(n, run, end, images, t);
    BlindIs(n, run, end, images, t);
    var l := end.threads[t];
    if Bare(l) {
      forall x | x in end.loaded ensures Covered(l, end.disabled, x) <==> Excused(l, end.disabled, x) {
        assert !AttachedOn(l, x);
      }
    }
  }

  /** Every pass of the thread got a context; what others got does not matter. */
  predicate AllContexts(run: seq<(nat, Action)>, t: nat) {
    forall i :: 0 <= i < |run| && run[i].0 == t && run[i].1.TakeSnapshot? ==> run[i].1.gotContext
  }

  lemma {:induction false} NeverBlind(run: seq<(nat, Action)>, t: nat)
    requires AllContexts(run, t)
    ensures !Blind(run, t)
  {
    if run != [] {
      NeverBlind(run[..|run| - 1], t);
    }
  }

  /** A thread whose passes all get a context: attached, or notifications disabled, or its setup failed. */
  lemma {:induction false} FastPathWithContexts(n: nat, run: seq<(nat, Action)>, end: State, images: set<Image>, t: nat)
    requires Runs(Start(n), run, images, end) && t < |end.threads| && AllContexts(run, t)
    requires end.threads[t].cached == end.generation && !end.threads[t].stage.Gone?
    ensures AllCovered(end, t) && AllNoBlock(end.threads[t].failed)
  {
    NeverBlind(run, t);
    FastPathSound(n, run, end, images, t);
    FastPathExactly(n, run, end, images, t);
  }

  /** The images counted against the limit are those loaded and those being attached, and the limit holds. */
  lemma {:induction false} AttachStateSafe(n: nat, run: seq<(nat, Action)>, end: State, images: set<Image>, t: nat)
    requires Runs(Start(n), run, images, end) && t < |end.threads| && end.threads[t].ctx.Some?
    ensures |end.loaded| + end.pending <= MAX_LOADED_IMAGES && end.pending == PendingCount(end.threads)
    ensures var th := end.threads[t].ctx.value;
            && ValidThread(th) && NoDuplicates(th.attached)
            && AttachedFrom(th.attached, end.loaded, Attaching(end.threads[t].phase))
            && (forall x :: x in th.attached && x.tls.Some? ==> Ranged(x))
            && (forall i :: 0 <= i < MAX_TLS_SLOTS ==> (th.slots[i] != 0 <==> OwnerIn(th.attached, i)))
            && (forall x, y :: x in th.attached && y in th.attached && x != y ==> NoClash(x, y))
    ensures forall x :: x in end.disabled ==> x.tls.None?
  {
    WorldSound(images);
    RunKeeps(n, run, end, WorldOf(images));
    assert LocalInv(end.loaded, end.disabled, end.threads[t], WorldOf(images));
  }

  /**
   * No thread is ever stuck: what its phase calls for is enabled, whatever the allocator and the entry point answer.
   */
  lemma {:induction false} NeverStuck(n: nat, run: seq<(nat, Action)>, end: State, images: set<Image>, t: nat,
                                      alloc: Allocation)
    requires Runs(Start(n), run, images, end) && t < |end.threads|
    ensures match end.threads[t].phase
            case Idle =>
              && Enabled(end, t, EnsureStart, images) && Enabled(end, t, StartPass, images)
              && (end.threads[t].stage.Live? && end.threads[t].ctx.Some? ==> Enabled(end, t, Detach, images))
              && (!end.threads[t].stage.Live? ==> Enabled(end, t, Reset, images))
            case Woken(_) => Enabled(end, t, TakeSnapshot(true), images)
            case Snapped(_, _) => Enabled(end, t, NotifyAttach(alloc), images)
            case Caught(_) => Enabled(end, t, CacheGeneration, images)
            case Entering(_, _) => Enabled(end, t, SetUp(alloc), images)
            case InEntry(x, _) => Enabled(end, t, EntryReturns(true), images)
              && (x.entry ==> Enabled(end, t, EntryReturns(false), images))
            case Failing(_, _, _) => Enabled(end, t, RollBack, images)
  {
    WorldSound(images);
    RunKeeps(n, run, end, WorldOf(images));
    assert LocalInv(end.loaded, end.disabled, end.threads[t], WorldOf(images));
    if Pending(end.threads[t].phase) {
      AtLeastOwn(end.threads, t);
    }
  }

  lemma {:induction false} AtLeastOwn(threads: seq<Local>, t: nat)
    requires t < |threads| && Pending(threads[t].phase)
    ensures PendingCount(threads) >= 1
  {
    var n := |threads| - 1;
    if t < n {
      AtLeastOwn(threads[..n], t);
    }
  }

  /** attach_image never fails for lack of room: not for a published image, nor for the one being attached. */
  lemma {:induction false} RoomAlways(n: nat, run: seq<(nat, Action)>, end: State, images: set<Image>, t: nat, x: Image)
    requires Runs(Start(n), run, images, end) && t < |end.threads| && end.threads[t].ctx.Some?
    requires var p := end.threads[t].phase;
             (Attaching(p).None? && x in end.loaded) || (p.Entering? && x == p.image)
    ensures x in end.threads[t].ctx.value.attached || CanAttach(end.threads[t].ctx.value, x)
  {
    var l := end.threads[t];
    var bound := ImagesOf(end.loaded) + (if l.phase.Entering? then {x} else {});
    AttachStateSafe(n, run, end, images, t);
    WorldSound(images);
    RunKeeps(n, run, end, WorldOf(images));
    FewImages(end.loaded);
    if l.phase.Entering? {
      AtLeastOwn(end.threads, t);
    }
    assert LocalInv(end.loaded, end.disabled, l, WorldOf(images));
    RoomFor(l.ctx.value, x, bound);
  }

  /**
   * A load that fails gives back what it took: rolling back leaves the attached set and the slots as the load found
   * them.
   */
  lemma {:induction false} FailedLoadRestores(n: nat, run: seq<(nat, Action)>, end: State, images: set<Image>, t: nat)
    requires Runs(Start(n), run, images, end) && t < |end.threads|
             && end.threads[t].phase.Failing?
    ensures Enabled(end, t, RollBack, images)
    ensures var after, before := Step(end, t, RollBack, images), end.threads[t].phase.before;
            && after.threads[t].phase.Idle? && after.threads[t].ctx.Some?
            && after.threads[t].ctx.value.attached == before.attached
               && after.threads[t].ctx.value.slots == before.slots
            && after.loaded == end.loaded && after.pending == end.pending && end.threads[t].phase.image !in end.loaded
  {
    WorldSound(images);
    RunKeeps(n, run, end, WorldOf(images));
    var l := end.threads[t];
    assert LocalInv(end.loaded, end.disabled, l, WorldOf(images));
    RollbackSame(l.ctx.value, l.phase.image, l.phase.called);
  }

  lemma {:induction false} RollbackSame(th: Thread, x: Image, called: bool)
    requires ValidThread(th)
    ensures RolledBack(th, x, called).attached == RolledBack(th, x, false).attached
    ensures RolledBack(th, x, called).slots == RolledBack(th, x, false).slots
  {
  }

  /**
   * Thread exit, in every reachable state: the attached images are visited last loaded first, each attached image with
   * notifications enabled gets exactly one DLL_THREAD_DETACH, each TLS block is freed once, so that over the thread's
   * life until then allocations and frees match, each image had at most one DLL_THREAD_ATTACH, and nothing stays
   * behind.
   */
  lemma {:induction false} ExitComplete(n: nat, run: seq<(nat, Action)>, end: State, images: set<Image>, t: nat)
    requires Runs(Start(n), run, images, end) && Enabled(end, t, Detach, images)
    ensures var th, snapshot := end.threads[t].ctx.value, SnapshotOf(end.loaded, end.disabled);
            var after := Step(end, t, Detach, images).threads[t];
            && after.ctx.Some? && ValidThread(after.ctx.value) && after.ctx.value.attached == []
            && AllZero(after.ctx.value.slots) && after.past == th.log + ExitLog(th.attached, snapshot)
            && forall x :: x in images ==> LifeTally(x, x in th.attached, x in end.disabled, CountOf(x)(after.past))
  {
    var w := WorldOf(images);
    WorldSound(images);
    RunKeeps(n, run, end, w);
    assert LocalInv(end.loaded, end.disabled, end.threads[t], w);
    DetachClears(end.threads[t].ctx.value, end.loaded, end.disabled, w);
  }

  /** Everything that happened on a thread whose context is about to be freed. */
  function Life(l: Local): seq<Event>
    requires l.ctx.Some?
  {
    l.past + l.ctx.value.log
  }

  /** The image's TLS block on the thread, if it has one. */
  predicate HoldsBlock(l: Local, x: Image) { AttachedOn(l, x) && Ranged(x) }

  /**
   * What the end of the drain leaves, in every reachable state: the context is freed while the images a callback
   * brought back still hold their blocks, so over the thread's whole life allocations and frees match exactly when no
   * image with a TLS directory is attached by then.
   */
  lemma {:induction false} ResetLeaves(n: nat, run: seq<(nat, Action)>, end: State, images: set<Image>, t: nat)
    requires Runs(Start(n), run, images, end) && Enabled(end, t, Reset, images)
    ensures end.threads[t].ctx.Some? && Step(end, t, Reset, images).threads[t] == NewLocal()
    ensures var l := end.threads[t];
            && (forall x :: x in images ==>
                  var life := CountOf(x)(Life(l));
                  && life.taken == life.freed + (if HoldsBlock(l, x) then 1 else 0) && life.left <= 1
                  && life.told <= (if AttachedOn(l, x) then 2 else 1))
            && ((forall x :: x in images ==> CountOf(x)(Life(l)).taken == CountOf(x)(Life(l)).freed) <==>
                (forall x :: x in images ==> !HoldsBlock(l, x)))
  {
    var w, l := WorldOf(images), end.threads[t];
    WorldSound(images);
    RunKeeps(n, run, end, w);
    assert LocalInv(end.loaded, end.disabled, l, w);
    forall x | x in images
      ensures var life := CountOf(x)(Life(l));
              && life.taken == life.freed + (if HoldsBlock(l, x) then 1 else 0) && life.left <= 1
              && life.told <= (if AttachedOn(l, x) then 2 else 1)
    {
      LifeSplits(w.counts(x), l, end.loaded, x);
    }
  }

  lemma {:induction false} LifeSplits(tally: Count, l: Local, loaded: seq<Image>, x: Image)
    requires Counts(tally, WeighFor(x)) && l.ctx.Some? && Closed(tally(l.past))
    requires AccountedFor(tally(l.ctx.value.log), l.ctx.value.attached, x, x in loaded)
    ensures var life := tally(Life(l));
            && life.taken == life.freed + (if HoldsBlock(l, x) then 1 else 0) && life.left <= 1
            && life.told <= (if AttachedOn(l, x) then 2 else 1)
  {
    JoinTwo(tally, WeighFor(x), l.past, l.ctx.value.log);
  }
}
