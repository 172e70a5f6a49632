/**
 * Runs of the loader: where the fast path is taken, where it or an exit goes wrong, and one load without interruption.
 */
module LoaderRuns {
  import opened Wrappers
  import opened ThreadState
  import opened LoaderProtocol

  /** States of n threads some run leads to. */
  ghost predicate Reachable(n: nat, images: set<Image>, end: State) {
    exists run: seq<(nat, Action)> :: Runs(Start(n), run, images, end)
  }

  lemma {:induction false} OneStep(n: nat, images: set<Image>, mid: State, t: nat, a: Action)
    requires Reachable(n, images, mid) && Enabled(mid, t, a, images)
    ensures Reachable(n, images, Step(mid, t, a, images))
  {
    var run: seq<(nat, Action)> :| Runs(Start(n), run, images, mid);
    var more := run + [(t, a)];
    assert more[..|run|] == run;
    assert Runs(Start(n), more[..|run|], images, mid) && Enabled(mid, more[|run|].0, more[|run|].1, images);
    assert Runs(Start(n), more, images, Step(mid, t, a, images));
  }

  /** A state with one thread replaced. */
  function Put(s: State, t: nat, l: Local): State
    requires t < |s.threads|
  {
    s.(threads := s.threads[t := l])
  }

  lemma {:induction false} PutPut(s: State, t: nat, l: Local, m: Local)
    requires t < |s.threads|
    ensures Put(Put(s, t, l), t, m) == Put(s, t, m) && Put(s, t, l).threads[t] == l
  {
    assert s.threads[t := l][t := m] == s.threads[t := m];
  }

  /** Actions that change nothing but their own thread. */
  predicate OnlyLocal(a: Action) {
    a.EnsureStart? || a.TakeSnapshot? || a.NotifyAttach? || a.CacheGeneration? || a.Detach? || a.Reset?
  }

  lemma {:induction false} LocalStep(n: nat, images: set<Image>, s: State, t: nat, l: Local, a: Action, m: Local)
    requires t < |s.threads| && Reachable(n, images, Put(s, t, l)) && Enabled(Put(s, t, l), t, a, images)
             && OnlyLocal(a)
    requires Acted(Put(s, t, l), l, a) == m
    ensures Reachable(n, images, Put(s, t, m))
  {
    PutPut(s, t, l, m);
    OneStep(n, images, Put(s, t, l), t, a);
  }

  /** A thread after pe_ensure_tls_for_loaded_images with nothing else going on. */
  function Ensured(s: State, l: Local, alloc: Allocation): Local
    requires l.ctx.Some? ==> ValidThread(l.ctx.value)
  {
    Notify(Noticed(s, l), alloc).(cached := s.generation, phase := Idle)
  }

  /** With the snapshot taken. */
  function Noticed(s: State, l: Local): Local {
    l.(ctx := Some(ContextOf(l)), phase := Snapped(s.generation, SnapshotOf(s.loaded, s.disabled)))
  }

  lemma {:induction false} NoticeRun(n: nat, images: set<Image>, s: State, t: nat, l: Local)
    requires t < |s.threads| && Reachable(n, images, Put(s, t, l)) && l.phase.Idle? && l.cached != s.generation
    ensures Reachable(n, images, Put(s, t, Noticed(s, l)))
  {
    LocalStep(n, images, s, t, l, EnsureStart, l.(phase := Woken(s.generation)));
    LocalStep(n, images, s, t, l.(phase := Woken(s.generation)), TakeSnapshot(true), Noticed(s, l));
  }

  lemma {:induction false} EnsureRun(n: nat, images: set<Image>, s: State, t: nat, l: Local, alloc: Allocation)
    requires t < |s.threads| && Reachable(n, images, Put(s, t, l)) && l.phase.Idle? && l.cached != s.generation
    requires l.ctx.Some? ==> ValidThread(l.ctx.value)
    ensures Reachable(n, images, Put(s, t, Ensured(s, l, alloc)))
  {
    NoticeRun(n, images, s, t, l);
    LocalStep(n, images, s, t, Noticed(s, l), NotifyAttach(alloc), Notify(Noticed(s, l), alloc));
    LocalStep(n, images, s, t, Notify(Noticed(s, l), alloc), CacheGeneration, Ensured(s, l, alloc));
  }

  // ----- publishing one image

  /** An image the allocator can serve. */
  predicate Usable(x: Image) { x.tls.Some? ==> Ranged(x) }

  function AnyBlock(): Allocation { _ => 1 }

  /** The context after publishing the only image. */
  function Publisher(x: Image): Thread {
    Logged(Initialized(NewContext(), x, ProcessAttach, 1).0, x.entry, Entry(x, ProcessAttach))
  }

  function PublishedBy(x: Image): Local { NewLocal().(ctx := Some(Publisher(x))) }

  /** One image is published, and no thread has seen anything. */
  function OnePublished(n: nat, x: Image): State { Start(n).(loaded := [x], generation := 2) }

  /** The only thread that does anything, in a phase of the load. */
  function Loading(n: nat, th: Thread, phase: Phase): State
    requires n > 0
  {
    Put(Start(n), 0, NewLocal().(ctx := Some(th), phase := phase)).(pending := 1)
  }

  lemma {:induction false} PublishRun(n: nat, x: Image)
    requires n > 0 && Usable(x)
    ensures Reachable(n, {x}, Put(OnePublished(n, x), 0, PublishedBy(x)))
    ensures ValidThread(Publisher(x)) && Publisher(x).attached == [x]
  {
    assert Runs(Start(n), [], {x}, Start(n));
    OneStep(n, {x}, Start(n), 0, Begin(x));
    var th := NewContext();
    assert Step(Start(n), 0, Begin(x), {x}) == Loading(n, th, Entering(x, th));
    PublishEnd(n, x, th);
  }

  lemma {:induction false} PublishEnd(n: nat, x: Image, th: Thread)
    requires n > 0 && Usable(x) && th == NewContext() && Reachable(n, {x}, Loading(n, th, Entering(x, th)))
    ensures Reachable(n, {x}, Put(OnePublished(n, x), 0, PublishedBy(x)))
    ensures ValidThread(Publisher(x)) && Publisher(x).attached == [x]
  {
    var s, during := Loading(n, th, Entering(x, th)), Initialized(th, x, ProcessAttach, 1).0;
    OneStep(n, {x}, s, 0, SetUp(AnyBlock()));
    PutPut(Start(n), 0, s.threads[0], s.threads[0].(ctx := Some(during), phase := InEntry(x, th)));
    assert Step(s, 0, SetUp(AnyBlock()), {x}) == Loading(n, during, InEntry(x, th));
    PublishLast(n, x, during, th);
  }

  lemma {:induction false} PublishLast(n: nat, x: Image, during: Thread, before: Thread)
    requires n > 0 && Reachable(n, {x}, Loading(n, during, InEntry(x, before)))
    ensures Reachable(n, {x}, Put(OnePublished(n, x), 0,
                                  NewLocal().(ctx := Some(Logged(during, x.entry, Entry(x, ProcessAttach))))))
  {
    var s, end := Loading(n, during, InEntry(x, before)),
      NewLocal().(ctx := Some(Logged(during, x.entry, Entry(x, ProcessAttach))));
    OneStep(n, {x}, s, 0, EntryReturns(true));
    PutPut(Start(n), 0, s.threads[0], end);
    var next := Step(s, 0, EntryReturns(true), {x});
    assert next.threads == Put(OnePublished(n, x), 0, end).threads && next.loaded == [x];
    assert next == Put(OnePublished(n, x), 0, end);
  }

  // ----- the runs

  lemma {:induction false} AttachedAlready(th: Thread, x: Loaded, alloc: Allocation)
    requires ValidThread(th) && x.image in th.attached
    ensures AttachAll(th, [x], alloc) == th && FailuresIn(th, [x], alloc) == {}
  {
    assert [x][..0] == [];
  }

  lemma {:induction false} AttachesAgain(th: Thread, x: Image)
    requires ValidThread(th) && th.attached == [] && Usable(x)
    ensures AttachAll(th, [Loaded(x, false)], AnyBlock()).attached == [x]
  {
    assert [Loaded(x, false)][..0] == [];
  }

  lemma {:induction false} OneSnapshot(x: Image)
    ensures SnapshotOf([x], {}) == [Loaded(x, false)]
  {
  }

  /** The publishing thread after its next call into a wrapper. */
  function Seen(x: Image): Local { PublishedBy(x).(cached := 2) }

  /** The premise of FastPathSound is met by real runs: publish an image, then ensure once. */
  lemma {:induction false} FastPathReached(x: Image) returns (end: State)
    requires Usable(x)
    ensures Reachable(1, {x}, end) && |end.threads| == 1 && end.loaded == [x] && end.disabled == {}
    ensures var l := end.threads[0]; l.cached == end.generation && l.stage.Live? && !l.blind && AttachedOn(l, x)
    ensures end == Put(OnePublished(1, x), 0, Seen(x))
  {
    var s := OnePublished(1, x);
    PublishRun(1, x);
    EnsureRun(1, {x}, s, 0, PublishedBy(x), AnyBlock());
    OneSnapshot(x);
    AttachedAlready(Publisher(x), Loaded(x, false), AnyBlock());
    assert Ensured(s, PublishedBy(x), AnyBlock()) == Seen(x);
    end := Put(s, 0, Seen(x));
  }

  /**
   * A pass that gets no context still caches the generation: the fast path is then taken for good, with a published
   * image neither attached, nor disabled, nor having failed its setup.
   */
  lemma {:induction false} MissedReached(x: Image) returns (end: State)
    requires Usable(x)
    ensures Reachable(2, {x}, end) && |end.threads| == 2 && end.loaded == [x]
    ensures var l := end.threads[1];
            && l.cached == end.generation && l.stage.Live? && l.phase.Idle?
            && l.blind && !Covered(l, end.disabled, x)
  {
    var s := Put(OnePublished(2, x), 0, PublishedBy(x));
    PublishRun(2, x);
    assert s == Put(s, 1, NewLocal());
    var woken := NewLocal().(phase := Woken(2));
    LocalStep(2, {x}, s, 1, NewLocal(), EnsureStart, woken);
    var missed := NewLocal().(phase := Caught(2), blind := true);
    LocalStep(2, {x}, s, 1, woken, TakeSnapshot(false), missed);
    LocalStep(2, {x}, s, 1, missed, CacheGeneration, missed.(phase := Idle, cached := 2));
    end := Put(s, 1, missed.(phase := Idle, cached := 2));
  }

  /** While FLS callbacks drain, the fast path is taken although the image the thread had attached no longer is. */
  lemma {:induction false} DrainReached(x: Image) returns (end: State)
    requires Usable(x)
    ensures Reachable(1, {x}, end) && |end.threads| == 1 && end.loaded == [x]
    ensures var l := end.threads[0]; l.stage.Gone? && l.cached == end.generation && !Covered(l, end.disabled, x)
  {
    var s := OnePublished(1, x);
    var before := FastPathReached(x);
    var gone := Detached(Seen(x), SnapshotOf([x], {}));
    LocalStep(1, {x}, s, 0, Seen(x), Detach, gone);
    end := Put(s, 0, gone);
    var run: seq<(nat, Action)> :| Runs(Start(1), run, {x}, end);
    FastPathSound(1, run, end, {x}, 0);
    assert !AttachedOn(gone, x);
  }

  /**
   * A callback of the drain that makes an attach pass brings the image back, and its TLS block is never freed: the
   * thread's life ends with one allocation more than frees.
   */
  lemma {:induction false} LeakReached(x: Image) returns (end: State)
    requires Ranged(x)
    ensures Reachable(1, {x}, end) && |end.threads| == 1 && Enabled(end, 0, Reset, {x}) && end.threads[0].ctx.Some?
    ensures var life := CountOf(x)(Life(end.threads[0])); life.taken == life.freed + 1
  {
    var s := OnePublished(1, x);
    PublishRun(1, x);
    var gone := Detached(PublishedBy(x), SnapshotOf([x], {}));
    LocalStep(1, {x}, s, 0, PublishedBy(x), Detach, gone);
    DetachedEmpty(Put(s, 0, PublishedBy(x)), x);
    EnsureRun(1, {x}, s, 0, gone, AnyBlock());
    AttachesAgain(gone.ctx.value, x);
    OneSnapshot(x);
    end := Put(s, 0, Ensured(s, gone, AnyBlock()));
    assert HoldsBlock(end.threads[0], x);
    var run: seq<(nat, Action)> :| Runs(Start(1), run, {x}, end);
    ResetLeaves(1, run, end, {x}, 0);
  }

  lemma {:induction false} DetachedEmpty(before: State, x: Image)
    requires Reachable(1, {x}, before) && Enabled(before, 0, Detach, {x}) && before.loaded == [x]
             && before.disabled == {}
    ensures var gone := Detached(before.threads[0], SnapshotOf([x], {}));
            ValidThread(gone.ctx.value) && gone.ctx.value.attached == []
  {
    var run: seq<(nat, Action)> :| Runs(Start(1), run, {x}, before);
    ExitComplete(1, run, before, {x}, 0);
  }

  // ----- one load without interruption

  /** The steps load_dll takes, when it has the loader to itself. */
  function LoadSteps(th: Thread, room: bool, x: Image, alloc: Allocation, result: bool): seq<Action>
    requires ValidThread(th)
  {
    if !room then [Begin(x)]
    else if !Initialized(th, x, ProcessAttach, alloc(x)).1 then [Begin(x), SetUp(alloc), RollBack]
    else if x.entry && !result then [Begin(x), SetUp(alloc), EntryReturns(false), RollBack]
    else [Begin(x), SetUp(alloc), EntryReturns(true)]
  }

  /** Taking these steps with thread t, each enabled when its turn comes, leads to that state. */
  ghost predicate Takes(s: State, t: nat, steps: seq<Action>, images: set<Image>, end: State)
    decreases |steps|
  {
    if steps == [] then s == end
    else Enabled(s, t, steps[0], images) && Takes(Step(s, t, steps[0], images), t, steps[1..], images, end)
  }

  lemma {:induction false} FirstStep(s: State, t: nat, a: Action, more: seq<Action>, images: set<Image>, end: State)
    requires Enabled(s, t, a, images) && Takes(Step(s, t, a, images), t, more, images, end)
    ensures Takes(s, t, [a] + more, images, end)
  {
    assert ([a] + more)[1..] == more;
  }

  /** The state after the load; a place is reserved for a new image object, whose notifications are enabled. */
  function Tried(s: State, t: nat, x: Image, room: bool, r: (Thread, bool)): State
    requires t < |s.threads|
  {
    Put(s, t, s.threads[t].(ctx := Some(r.0))).(loaded := if r.1 then s.loaded + [x] else s.loaded,
                                                generation := if r.1 then s.generation + 1 else s.generation,
                                                disabled := if room then s.disabled - {x} else s.disabled)
  }

  /** A load under way: one more pending, the image's notifications enabled. */
  function Underway(s: State, t: nat, x: Image, l: Local): State
    requires t < |s.threads|
  {
    Put(s, t, l).(pending := s.pending + 1, disabled := s.disabled - {x})
  }

  /**
   * Without interruption the steps of the protocol are load_dll: they leave what LoadedBy computes, which is also what
   * DllLoader.Loader.LoadDll computes.
   */
  lemma {:induction false} LoadIsRun(s: State, t: nat, x: Image, alloc: Allocation, result: bool, images: set<Image>)
    requires Enabled(s, t, Begin(x), images) && s.threads[t].ctx.Some? && ValidThread(s.threads[t].ctx.value)
    ensures var th, room := s.threads[t].ctx.value, |s.loaded| + s.pending != MAX_LOADED_IMAGES;
            Takes(s, t, LoadSteps(th, room, x, alloc, result), images,
                  Tried(s, t, x, room, LoadedBy(th, room, x, alloc(x), result)))
  {
    var l := s.threads[t];
    var th := l.ctx.value;
    if |s.loaded| + s.pending == MAX_LOADED_IMAGES {
      assert Step(s, t, Begin(x), images) == Tried(s, t, x, false, (th, false));
      FirstStep(s, t, Begin(x), [], images, Tried(s, t, x, false, (th, false)));
    } else {
      var begun := Underway(s, t, x, l.(phase := Entering(x, th)));
      assert Step(s, t, Begin(x), images) == begun;
      var steps := LoadSteps(th, true, x, alloc, result)[1..];
      var end := Tried(s, t, x, true, LoadedBy(th, true, x, alloc(x), result));
      BegunRuns(s, t, x, alloc, result, images);
      FirstStep(s, t, Begin(x), steps, images, end);
      assert LoadSteps(th, true, x, alloc, result) == [Begin(x)] + steps;
    }
  }

  lemma {:induction false} BegunRuns(s: State, t: nat, x: Image, alloc: Allocation, result: bool, images: set<Image>)
    requires t < |s.threads| && s.threads[t].phase.Idle? && s.threads[t].ctx.Some?
             && ValidThread(s.threads[t].ctx.value)
    ensures var l, th := s.threads[t], s.threads[t].ctx.value;
            Takes(Underway(s, t, x, l.(phase := Entering(x, th))), t,
                  LoadSteps(th, true, x, alloc, result)[1..], images,
                  Tried(s, t, x, true, LoadedBy(th, true, x, alloc(x), result)))
  {
    var l := s.threads[t];
    var th := l.ctx.value;
    var begun := Underway(s, t, x, l.(phase := Entering(x, th)));
    var (next, initialized) := Initialized(th, x, ProcessAttach, alloc(x));
    var end := Tried(s, t, x, true, LoadedBy(th, true, x, alloc(x), result));
    if !initialized {
      var failing := Underway(s, t, x, l.(ctx := Some(next), phase := Failing(x, th, false))).(pending := s.pending);
      assert Step(begun, t, SetUp(alloc), images) == failing;
      BackOut(s, t, x, next, th, false, images);
      FirstStep(begun, t, SetUp(alloc), [RollBack], images, end);
    } else {
      var ready := Underway(s, t, x, l.(ctx := Some(next), phase := InEntry(x, th)));
      assert Step(begun, t, SetUp(alloc), images) == ready;
      EntryRuns(s, t, x, next, th, result, images);
      var steps := if x.entry && !result then [EntryReturns(false), RollBack] else [EntryReturns(true)];
      FirstStep(begun, t, SetUp(alloc), steps, images, end);
    }
  }

  lemma {:induction false} BackOut(s: State, t: nat, x: Image, th: Thread, before: Thread, called: bool,
                                   images: set<Image>)
    requires t < |s.threads| && s.threads[t].phase.Idle? && ValidThread(th)
    ensures var l := s.threads[t];
            Takes(Underway(s, t, x, l.(ctx := Some(th), phase := Failing(x, before, called))).(pending := s.pending),
                  t, [RollBack], images, Tried(s, t, x, true, (RolledBack(th, x, called), false)))
  {
    var l := s.threads[t];
    var failing := Underway(s, t, x, l.(ctx := Some(th), phase := Failing(x, before, called))).(pending := s.pending);
    var end := Tried(s, t, x, true, (RolledBack(th, x, called), false));
    PutPut(s, t, failing.threads[t], end.threads[t]);
    assert Step(failing, t, RollBack, images) == end;
    FirstStep(failing, t, RollBack, [], images, end);
  }

  lemma {:induction false} EntryRuns(s: State, t: nat, x: Image, th: Thread, before: Thread, result: bool,
                                     images: set<Image>)
    requires t < |s.threads| && s.threads[t].phase.Idle? && ValidThread(th)
    ensures var l, failed, told := s.threads[t], x.entry && !result, Logged(th, x.entry, Entry(x, ProcessAttach));
            Takes(Underway(s, t, x, l.(ctx := Some(th), phase := InEntry(x, before))), t,
                  if failed then [EntryReturns(false), RollBack] else [EntryReturns(true)], images,
                  Tried(s, t, x, true, if failed then (RolledBack(told, x, true), false) else (told, true)))
  {
    var l, told := s.threads[t], Logged(th, x.entry, Entry(x, ProcessAttach));
    var ready := Underway(s, t, x, l.(ctx := Some(th), phase := InEntry(x, before)));
    if x.entry && !result {
      var failing := Underway(s, t, x, l.(ctx := Some(told), phase := Failing(x, before, true))).(pending := s.pending);
      PutPut(s, t, ready.threads[t], failing.threads[t]);
      assert Step(ready, t, EntryReturns(false), images) == failing;
      BackOut(s, t, x, told, before, true, images);
      FirstStep(ready, t, EntryReturns(false), [RollBack], images,
                Tried(s, t, x, true, (RolledBack(told, x, true), false)));
    } else {
      var end := Tried(s, t, x, true, (told, true));
      PutPut(s, t, ready.threads[t], end.threads[t]);
      assert Step(ready, t, EntryReturns(true), images) == end;
      FirstStep(ready, t, EntryReturns(true), [], images, end);
    }
  }
}
