/**
 * The managed wrapper that owns a disposable object and hands it out until it is disposed.
 */
module Disposable {
  /** A disposable object; only how often it has been disposed matters here. */
  class Resource {
    var disposals: nat

    constructor ()
      ensures disposals == 0
    {
      disposals := 0;
    }

    method Dispose()
      modifies this
      ensures disposals == old(disposals) + 1
    {
      disposals := disposals + 1;
    }
  }

  class Disposable {
    var impl: Resource?
    /** The object the wrapper was made with, and how often it had been disposed then. */
    ghost const wrapped: Resource?
    ghost const initial: nat

    /** The wrapper still holds its object, or has let go of it, disposing it at most once.
      * While the object is held, this presumes that nothing but the wrapper disposes it:
      * a method that may dispose the wrapped object elsewhere breaks Valid(). */
    ghost predicate Valid()
      reads this, wrapped
    {
      && (impl == null || impl == wrapped)
      && (impl != null ==> wrapped.disposals == initial)
      && (impl == null && wrapped != null ==> initial <= wrapped.disposals <= initial + 1)
    }

    constructor (impl: Resource?)
      ensures this.impl == impl && wrapped == impl && Valid()
    {
      this.impl := impl;
      wrapped := impl;
      initial := if impl != null then impl.disposals else 0;
    }

    /** The Impl getter: the wrapped object, or null once disposed. */
    function Impl(): (r: Resource?)
      reads this
      ensures r == impl
    {
      impl
    }

    /**
     * Dispose(disposing): a held object is disposed only when `disposing`, and let go of
     * either way; once let go of, nothing happens.
     */
    method DisposeCore(disposing: bool)
      requires Valid()
      modifies this, wrapped
      ensures Valid() && impl == null && Impl() == null
      ensures old(impl) != null && disposing ==> wrapped.disposals == initial + 1
      ensures old(impl) == null || !disposing ==> wrapped == null || wrapped.disposals == old(wrapped.disposals)
    {
      if impl != null {
        if disposing {
          impl.Dispose();
        }
        impl := null;
      }
    }

    /** Dispose(): Dispose(true). */
    method Dispose()
      requires Valid()
      modifies this, wrapped
      ensures Valid() && impl == null
      ensures old(impl) != null ==> wrapped.disposals == initial + 1
      ensures old(impl) == null ==> wrapped == null || wrapped.disposals == old(wrapped.disposals)
    {
      DisposeCore(true);
    }
  }

  /** A second Dispose leaves the wrapped object disposed exactly once. */
  method DisposeTwice(r: Resource)
    modifies r
    ensures r.disposals == old(r.disposals) + 1
  {
    var d := new Disposable(r);
    d.Dispose();
    d.Dispose();
  }
}
