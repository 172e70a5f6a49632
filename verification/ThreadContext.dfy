/**
 * nt_thread_context: the per-thread arrays and the loader calls that update them (src/pe_loader.cpp:192-199, 247-407,
 * 464-485).
 */
module ThreadContext {
  import opened Wrappers
  import opened ThreadState

  const NO_IMAGE := Image(0, None, false)

  class Context {
    const attachedImages: array<Image>
    var attachedCount: nat
    const localStorage: array<nat>
    ghost var log: seq<Event>

    ghost predicate Valid()
      reads this, attachedImages, localStorage
    {
      attachedImages.Length == MAX_LOADED_IMAGES && attachedCount <= MAX_LOADED_IMAGES
        && localStorage.Length == MAX_TLS_SLOTS
    }

    ghost function State(): (th: Thread)
      requires Valid()
      reads this, attachedImages, localStorage
      ensures ValidThread(th)
    {
      Thread(attachedImages[..attachedCount], localStorage[..], log)
    }

    /** A zero-filled context; only slot 0 may start non-zero, and no image owns it. */
    constructor (initialSlot: nat)
      ensures Valid() && fresh(attachedImages) && fresh(localStorage)
      ensures State().attached == [] && State().log == [] && forall i :: 1 <= i < MAX_TLS_SLOTS ==>
              State().slots[i] == 0
    {
      attachedImages := new Image[MAX_LOADED_IMAGES](_ => NO_IMAGE);
      attachedCount := 0;
      localStorage := new nat[MAX_TLS_SLOTS](i => if i == 0 then initialSlot else 0);
      log := [];
    }

    /** thread_has_image. */
    method HasImage(image: Image) returns (has: bool)
      requires Valid()
      ensures has <==> image in State().attached
    {
      var i: nat := 0;
      while i < attachedCount
        invariant i <= attachedCount && forall j :: 0 <= j < i ==> attachedImages[j] != image
      {
        if attachedImages[i] == image {
          assert State().attached[i] == image;
          return true;
        }
        i := i + 1;
      }
      has := false;
    }

    /** attach_image. */
    method AttachImage(image: Image) returns (ok: bool)
      requires Valid()
      modifies this`attachedCount, attachedImages
      ensures Valid() && (ok <==> CanAttach(old(State()), image))
      ensures State() == if ok then old(State()).(attached := old(State().attached) + [image]) else old(State())
    {
      var has := HasImage(image);
      if has || attachedCount == MAX_LOADED_IMAGES {
        return false;
      }
      attachedImages[attachedCount] := image;
      attachedCount := attachedCount + 1;
      ok := true;
    }

    /** memmove of the entries after i down by one, and the last place cleared. */
    method RemoveAt(i: nat)
      requires Valid() && i < attachedCount
      modifies this`attachedCount, attachedImages
      ensures Valid() && State() == old(State()).(attached :=
                                                  old(State().attached)[..i] + old(State().attached)[i + 1..])
    {
      ghost var s := State().attached;
      var j: nat := i;
      while j < attachedCount - 1
        invariant i <= j < attachedCount && attachedCount == old(attachedCount)
        invariant forall k :: 0 <= k < i ==> attachedImages[k] == s[k]
        invariant forall k :: i < k <= j ==> attachedImages[k - 1] == s[k]
        invariant forall k :: j < k < attachedCount ==> attachedImages[k] == s[k]
      {
        assert attachedImages[j + 1] == s[j + 1];
        attachedImages[j] := attachedImages[j + 1];
        j := j + 1;
      }
      attachedCount := attachedCount - 1;
      attachedImages[attachedCount] := NO_IMAGE;
      ghost var r := attachedImages[..attachedCount];
      assert forall k :: i < k < |s| ==> r[k - 1] == s[k];
      assert r == s[..i] + s[i + 1..];
    }

    /** detach_image. */
    method DetachImage(image: Image)
      requires Valid()
      modifies this`attachedCount, attachedImages
      ensures Valid() && State() == old(State()).(attached := Removed(old(State().attached), image))
    {
      ghost var s := State().attached;
      var i: nat := 0;
      while i < attachedCount
        invariant i <= attachedCount && State() == old(State()) && Valid() && attachedCount == old(attachedCount)
        invariant forall j :: 0 <= j < i ==> s[j] != image
      {
        if attachedImages[i] == image {
          FirstIndex(s, image, i);
          RemoveAt(i);
          return;
        }
        i := i + 1;
      }
      NoIndex(s, image);
    }

    /** free and null, if the slot holds a block. */
    method ReleaseBlock(image: Image)
      requires Valid()
      modifies localStorage, this`log
      ensures Valid() && State() == Released(old(State()), image)
    {
      if image.tls.Some? && image.tls.value < MAX_TLS_SLOTS && localStorage[image.tls.value] != 0 {
        localStorage[image.tls.value] := 0;
        log := log + [Free(image)];
      }
    }

    /** pe_initialize_tls_for_current_thread; alloc says what calloc returns. */
    method InitializeTls(image: Image, reason: Reason, alloc: Allocation) returns (ok: bool)
      requires Valid()
      modifies this, attachedImages, localStorage
      ensures Valid() && (State(), ok) == Initialized(old(State()), image, reason, alloc(image))
    {
      var needsAttachment := reason == ProcessAttach || reason == ThreadAttach;
      var alreadyAttached := HasImage(image);
      if image.tls.None? {
        ok := !needsAttachment || alreadyAttached;
        if !ok {
          ok := AttachImage(image);
        }
        return;
      }
      if image.tls.value >= MAX_TLS_SLOTS {
        return false;
      }
      var newlyInitialized := false;
      if localStorage[image.tls.value] == 0 {
        var block := alloc(image);
        if block == 0 {
          return false;
        }
        localStorage[image.tls.value] := block;
        log := log + [Alloc(image)];
        newlyInitialized := true;
      }
      assert State() == WithBlock(old(State()), image, alloc(image));
      if needsAttachment && !alreadyAttached {
        var attached := AttachImage(image);
        if !attached {
          if newlyInitialized {
            ReleaseBlock(image);
          }
          return false;
        }
      }
      if newlyInitialized && needsAttachment {
        log := log + [Callbacks(image, reason)];
      }
      ok := true;
    }

    /** The entry point of an image with one is called with DLL_PROCESS_ATTACH. */
    method RecordEntry(image: Image)
      requires Valid()
      modifies this`log
      ensures Valid() && State() == Logged(old(State()), image.entry, Entry(image, ProcessAttach))
    {
      if image.entry {
        log := log + [Entry(image, ProcessAttach)];
      }
    }

    /** pe_notify_loaded_images(DLL_THREAD_ATTACH) over a snapshot of the loaded images. */
    method NotifyAttach(snapshot: seq<Loaded>, alloc: Allocation)
      requires Valid()
      modifies this, attachedImages, localStorage
      ensures Valid() && State() == AttachAll(old(State()), snapshot, alloc)
    {
      var i: nat := 0;
      while i < |snapshot|
        invariant i <= |snapshot| && Valid() && State() == AttachAll(old(State()), snapshot[..i], alloc)
      {
        assert snapshot[..i + 1][..i] == snapshot[..i];
        NotifyAttachOne(snapshot[i], alloc);
        i := i + 1;
      }
      assert snapshot[..i] == snapshot;
    }

    method NotifyAttachOne(x: Loaded, alloc: Allocation)
      requires Valid()
      modifies this, attachedImages, localStorage
      ensures Valid() && State() == AttachOne(old(State()), x, alloc(x.image))
    {
      var attached := HasImage(x.image);
      if attached || x.disabled {
        return;
      }
      var ok := InitializeTls(x.image, ThreadAttach, alloc);
      if ok && x.image.entry {
        log := log + [Entry(x.image, ThreadAttach)];
      }
    }

    /** pe_notify_loaded_images(DLL_THREAD_DETACH): the snapshot is visited in reverse. */
    method NotifyDetach(snapshot: seq<Loaded>)
      requires Valid()
      modifies this, attachedImages, localStorage
      ensures Valid() && State() == DetachAll(old(State()), snapshot)
    {
      var i: nat := |snapshot|;
      assert snapshot[..i] == snapshot;
      while i > 0
        invariant i <= |snapshot| && Valid() && DetachAll(State(), snapshot[..i]) == DetachAll(old(State()), snapshot)
      {
        i := i - 1;
        assert snapshot[..i + 1][..i] == snapshot[..i];
        NotifyDetachOne(snapshot[i]);
      }
    }

    method NotifyDetachOne(x: Loaded)
      requires Valid()
      modifies this, attachedImages, localStorage
      ensures Valid() && State() == DetachOne(old(State()), x)
    {
      var attached := HasImage(x.image);
      if !attached {
        return;
      }
      if !x.disabled {
        if x.image.tls.Some? {
          log := log + [Callbacks(x.image, ThreadDetach)];
        }
        if x.image.entry {
          log := log + [Entry(x.image, ThreadDetach)];
        }
      }
      ReleaseBlock(x.image);
      DetachImage(x.image);
    }

    /** The failure half of pe_finish_process_attach. */
    method RollBack(image: Image, entryCalled: bool)
      requires Valid()
      modifies this, attachedImages, localStorage
      ensures Valid() && State() == RolledBack(old(State()), image, entryCalled)
    {
      var has := HasImage(image);
      if has && image.tls.Some? && image.tls.value < MAX_TLS_SLOTS && localStorage[image.tls.value] != 0 {
        log := log + [Callbacks(image, ProcessDetach)];
      }
      if entryCalled && image.entry {
        log := log + [Entry(image, ProcessDetach)];
      }
      if has {
        ReleaseBlock(image);
        DetachImage(image);
      }
    }
  }

  lemma {:induction false} FirstIndex(s: seq<Image>, image: Image, i: nat)
    requires i < |s| && s[i] == image && forall j :: 0 <= j < i ==> s[j] != image
    ensures IndexIn(s, image) == i
  {
    if i > 0 {
      assert s[0] != image;
      FirstIndex(s[1..], image, i - 1);
    }
  }

  lemma {:induction false} NoIndex(s: seq<Image>, image: Image)
    requires forall j :: 0 <= j < |s| ==> s[j] != image
    ensures IndexIn(s, image) == |s|
  {
    if s != [] {
      assert s[0] != image;
      NoIndex(s[1..], image);
    }
  }
}
