/**
 * `my.java.resourcemanagement`: a one-slot holder and the close-once wrapper built on it.
 * Java's `null` resource is `None`.
 */
module ResourceManagement {
  import opened Wrappers

  /** `ResourceHolder<T>`: one mutable slot holding a resource or null. */
  class ResourceHolder<T> {
    var resource: Option<T>

    /** Holds `resource`, which may be null. */
    constructor (resource: Option<T>)
      ensures this.resource == resource
    {
      this.resource := resource;
    }

    /** Returns the held resource and changes nothing. */
    method Get() returns (r: Option<T>)
      ensures r == resource
    {
      r := resource;
    }

    /** Stores `newResource` and returns the resource held before. */
    method Reset(newResource: Option<T>) returns (original: Option<T>)
      modifies this
      ensures original == old(resource)
      ensures resource == newResource
    {
      original := resource;
      resource := newResource;
    }

    /** `reset(null)`: returns the resource held before and leaves the slot null. */
    method Release() returns (original: Option<T>)
      modifies this
      ensures original == old(resource)
      ensures resource == None
    {
      original := Reset(None);
    }
  }

  /** What one `close()` does to the slot, whether `doClose` ran, and how `close()` ends. */
  datatype CloseEffect<T, E> = CloseEffect(slot: Option<T>, doCloseRan: bool, result: Outcome<E>)

  /**
   * `close()` on a slot holding `slot`, given how the subclass's `doClose` would end:
   * nothing happens on a null slot; otherwise `doClose` runs, and the slot is cleared
   * only when it returns normally.
   */
  function CloseSpec<T, E>(slot: Option<T>, doClose: Outcome<E>): CloseEffect<T, E>
  {
    if slot.None? then CloseEffect(None, false, Pass)
    else if doClose.Fail? then CloseEffect(slot, true, doClose)
    else CloseEffect(None, true, Pass)
  }

  /** `doClose` runs exactly when the slot is non-null. */
  lemma CloseRunsDoCloseIffHeld<T, E>(slot: Option<T>, doClose: Outcome<E>)
    ensures CloseSpec(slot, doClose).doCloseRan <==> slot.Some?
  {
  }

  /** A `close()` that returns normally leaves the slot null; one that throws leaves it as it was. */
  lemma CloseClearsUnlessDoCloseFails<T, E>(slot: Option<T>, doClose: Outcome<E>)
    ensures CloseSpec(slot, doClose).result.Pass? ==> CloseSpec(slot, doClose).slot == None
    ensures CloseSpec(slot, doClose).result.Fail? ==>
              CloseSpec(slot, doClose).slot == slot && slot.Some? && CloseSpec(slot, doClose).result == doClose
  {
  }

  /**
   * Closing again after a `close()` that returned normally does not run `doClose`, returns
   * normally and leaves the slot null, whatever `doClose` would do.
   */
  lemma CloseIsIdempotent<T, E>(slot: Option<T>, first: Outcome<E>, second: Outcome<E>)
    requires CloseSpec(slot, first).result.Pass?
    ensures CloseSpec(CloseSpec(slot, first).slot, second) == CloseEffect(None, false, Pass)
  {
  }

  /**
   * `AbstractAutoCloseableResourceThrowingCheckedExceptionOnClose<T, E>`. The Java class extends
   * `ResourceHolder<T>`; here it owns one (`holder`), so `get`, `reset` and `release` are the
   * holder's. The abstract `doClose` is a parameter of `Close` saying how it would end, and
   * `doCloseCalls` counts how often it was invoked.
   */
  class AutoCloseableResource<T, E> {
    const holder: ResourceHolder<T>
    ghost var doCloseCalls: nat

    constructor (resource: Option<T>)
      ensures fresh(holder) && holder.resource == resource
      ensures doCloseCalls == 0
    {
      holder := new ResourceHolder(resource);
      doCloseCalls := 0;
    }

    /** Returns the held resource and changes nothing. */
    method Get() returns (r: Option<T>)
      ensures r == holder.resource
    {
      r := holder.Get();
    }

    /** `close()`: runs `doClose` once if the slot is non-null, then clears the slot unless `doClose` threw. */
    method Close(doClose: Outcome<E>) returns (r: Outcome<E>)
      modifies this, holder
      ensures var effect := CloseSpec(old(holder.resource), doClose);
        && holder.resource == effect.slot
        && r == effect.result
        && doCloseCalls == old(doCloseCalls) + (if effect.doCloseRan then 1 else 0)
    {
      var current := holder.Get();
      if current.Some? {
        doCloseCalls := doCloseCalls + 1;
        if doClose.Fail? {
          return doClose;
        }
        var _ := holder.Reset(None);
      }
      r := Pass;
    }
  }
}
