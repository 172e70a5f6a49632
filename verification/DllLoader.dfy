/** One load on one thread, in place: begin, TLS setup, entry point, finish, and the discard of a failed image
    (src/dll_loader.cpp:27-74, src/pe_loader.cpp:418-486). */
module DllLoader {
  import opened Wrappers
  import opened ThreadState
  import opened ThreadContext
  import ExportTable

  class Loader {
    const loadedImages: array<Image>
    var loadedCount: nat
    var pendingCount: nat
    var generation: nat
    var disabled: set<Image>
    var attaching: Option<Image>

    ghost predicate Valid()
      reads this
    {
      && loadedImages.Length == MAX_LOADED_IMAGES && loadedCount + pendingCount <= MAX_LOADED_IMAGES
      && (attaching.Some? ==> pendingCount > 0)
    }

    ghost function LoadedImages(): seq<Image>
      requires Valid()
      reads this, loadedImages
    {
      loadedImages[..loadedCount]
    }

    constructor ()
      ensures Valid() && fresh(loadedImages) && LoadedImages() == [] && generation == 1 && attaching.None?
              && disabled == {}
    {
      loadedImages := new Image[MAX_LOADED_IMAGES](_ => NO_IMAGE);
      loadedCount, pendingCount, generation, disabled, attaching := 0, 0, 1, {}, None;
    }

    /** loaded_images_snapshot. */
    method Snapshot() returns (images: seq<Loaded>)
      requires Valid()
      ensures |images| == |LoadedImages()|
      ensures forall i :: 0 <= i < |images| ==> images[i] == Loaded(LoadedImages()[i], LoadedImages()[i] in disabled)
    {
      images := [];
      var i: nat := 0;
      while i < loadedCount
        invariant i <= loadedCount && |images| == i
        invariant forall k :: 0 <= k < i ==> images[k] == Loaded(loadedImages[k], loadedImages[k] in disabled)
      {
        images := images + [Loaded(loadedImages[i], loadedImages[i] in disabled)];
        i := i + 1;
      }
    }

    /** pe_disable_thread_library_calls: refused for images with a TLS directory. */
    method DisableThreadLibraryCalls(image: Image) returns (ok: bool)
      requires Valid()
      modifies this`disabled
      ensures ok <==> image.tls.None? && (attaching == Some(image) || image in LoadedImages())
      ensures disabled == if ok then old(disabled) + {image} else old(disabled)
    {
      if attaching == Some(image) {
        if image.tls.Some? {
          return false;
        }
        disabled := disabled + {image};
        return true;
      }
      var i: nat := 0;
      while i < loadedCount
        invariant i <= loadedCount && disabled == old(disabled) && forall k :: 0 <= k < i ==> loadedImages[k] != image
      {
        if loadedImages[i] == image {
          assert LoadedImages()[i] == image;
          if image.tls.Some? {
            return false;
          }
          disabled := disabled + {image};
          return true;
        }
        i := i + 1;
      }
      ok := false;
    }

    /** pe_begin_process_attach: a place in the list is reserved. */
    method BeginProcessAttach(image: Image) returns (ok: bool)
      requires Valid()
      modifies this`pendingCount, this`attaching
      ensures Valid() && (ok <==> old(attaching).None? && loadedCount + old(pendingCount) < MAX_LOADED_IMAGES)
      ensures pendingCount == old(pendingCount) + (if ok then 1 else 0)
              && attaching == (if ok then Some(image) else old(attaching))
    {
      if attaching.Some? {
        return false;
      }
      if loadedCount + pendingCount == MAX_LOADED_IMAGES {
        return false;
      }
      pendingCount := pendingCount + 1;
      attaching := Some(image);
      ok := true;
    }

    /** pe_finish_process_attach: publish the image and bump the generation, or give everything back. */
    method FinishProcessAttach(image: Image, attached: bool, entryCalled: bool, ctx: Context) returns (ok: bool)
      requires Valid() && ctx.Valid() && loadedImages != ctx.attachedImages
      modifies this, loadedImages, ctx, ctx.attachedImages, ctx.localStorage
      ensures Valid() && ctx.Valid() && (ok <==> old(attaching) == Some(image)) && disabled == old(disabled)
      ensures !ok ==> LoadedImages() == old(LoadedImages()) && ctx.State() == old(ctx.State())
      ensures !ok ==> pendingCount == old(pendingCount) && generation == old(generation) && attaching == old(attaching)
      ensures ok ==> pendingCount == old(pendingCount) - 1 && attaching.None?
      ensures ok && attached ==> LoadedImages() == old(LoadedImages()) + [image] && generation == old(generation) + 1
      ensures ok && attached ==> ctx.State() == old(ctx.State())
      ensures ok && !attached ==> LoadedImages() == old(LoadedImages()) && generation == old(generation)
      ensures ok && !attached ==> ctx.State() == RolledBack(old(ctx.State()), image, entryCalled)
    {
      if attaching != Some(image) {
        return false;
      }
      pendingCount := pendingCount - 1;
      if attached {
        loadedImages[loadedCount] := image;
        loadedCount := loadedCount + 1;
        generation := generation + 1;
      } else {
        ctx.RollBack(image, entryCalled);
      }
      attaching := None;
      ok := true;
    }

    /** Whether pe_begin_process_attach will reserve a place. */
    ghost predicate HasRoom()
      requires Valid()
      reads this
    {
      attaching.None? && loadedCount + pendingCount < MAX_LOADED_IMAGES
    }

    /**
     * load_dll, from pe_begin_process_attach on; result is what the entry point returns. A failed load leaves the
     * loaded list, the pending count, the generation, the thread's attached set and its TLS slots as they were, and the
     * export table without the image.
     */
    method LoadDll(ctx: Context, exports: ExportTable.Table, image: Image, alloc: Allocation, result: bool,
                   ghost images: set<Image>)
      returns (ok: bool)
      requires Valid() && ctx.Valid() && exports.Valid() && loadedImages != ctx.attachedImages
      requires Consistent(ctx.State(), images) && DistinctSlots(images) && image in images
               && image !in ctx.State().attached
      modifies this, loadedImages, ctx, ctx.attachedImages, ctx.localStorage, exports, exports.list
      ensures Valid() && ctx.Valid() && exports.Valid() && disabled == old(disabled)
      ensures (ctx.State(), ok) == LoadedBy(old(ctx.State()), old(HasRoom()), image, alloc(image), result)
      ensures ok ==> LoadedImages() == old(LoadedImages()) + [image] && generation == old(generation) + 1
      ensures ok ==> ctx.State().attached == old(ctx.State()).attached + [image]
      ensures ok ==> exports.Contents() == old(exports.Contents())
      ensures !ok ==> LoadedImages() == old(LoadedImages()) && generation == old(generation)
      ensures !ok ==> ctx.State().attached == old(ctx.State()).attached && ctx.State().slots == old(ctx.State()).slots
      ensures !ok ==> exports.Contents() == ExportTable.Without(old(exports.Contents()), image.id)
      ensures pendingCount == old(pendingCount) && attaching == old(attaching)
    {
      ghost var before := ctx.State();
      SetupIs(before, image, ProcessAttach, alloc(image), images);
      ok := BeginProcessAttach(image);
      if !ok {
        exports.DiscardImage(image.id);
        return;
      }
      var initialized := ctx.InitializeTls(image, ProcessAttach, alloc);
      if !initialized {
        FailedAttachRestores(before, image, alloc(image), false, images);
        var done := FinishProcessAttach(image, false, false, ctx);
        exports.DiscardImage(image.id);
        return false;
      }
      var loaded := !image.entry || result;
      ghost var during := ctx.State();
      ctx.RecordEntry(image);
      if !loaded {
        FailedAttachRestores(before, image, alloc(image), true, images);
        SameRollback(during, ctx.State(), image, true);
      }
      var finished := FinishProcessAttach(image, loaded, true, ctx);
      if !loaded || !finished {
        exports.DiscardImage(image.id);
      }
      ok := finished && loaded;
    }
  }

  /** The log does not matter to what a rollback restores. */
  lemma {:induction false} SameRollback(a: Thread, b: Thread, image: Image, called: bool)
    requires ValidThread(a) && a.attached == b.attached && a.slots == b.slots
    ensures RolledBack(a, image, called).attached == RolledBack(b, image, called).attached
    ensures RolledBack(a, image, called).slots == RolledBack(b, image, called).slots
  {
  }
}
