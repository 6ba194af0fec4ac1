/**
 * The Java session handle of libhaggle (org.haggle.Handle): registration in the
 * constructor, the idempotent `dispose`, `finalize`, and the daemon status codes.
 * The native calls are outside the model: `getHandle`'s return value is a
 * parameter and `nativeFree` is counted rather than performed.
 */
module Handle {
  import opened Wrappers

  const HaggleError: int := -100
  const HaggleNoError: int := 0

  /** The daemon states an application can observe while launching Haggle. */
  datatype DaemonStatus = DaemonError | DaemonNotRunning | DaemonRunning | DaemonCrashed

  /** The integer code the Java class publishes for each daemon state. */
  function StatusCode(s: DaemonStatus): (c: int)
    ensures s == DaemonError <==> c == HaggleError
    ensures s == DaemonNotRunning <==> c == HaggleNoError
    ensures s == DaemonRunning <==> c == 1
    ensures s == DaemonCrashed <==> c == 2
  {
    match s
    case DaemonError => HaggleError
    case DaemonNotRunning => HaggleNoError
    case DaemonRunning => 1
    case DaemonCrashed => 2
  }

  /** Reads a status code back; a number that is none of the four codes has no state. */
  function StatusFromCode(c: int): (r: Option<DaemonStatus>)
    ensures r.Some? ==> StatusCode(r.value) == c
    ensures r.None? <==> (c != HaggleError && c != HaggleNoError && c != 1 && c != 2)
  {
    if c == HaggleError then Some(DaemonError)
    else if c == HaggleNoError then Some(DaemonNotRunning)
    else if c == 1 then Some(DaemonRunning)
    else if c == 2 then Some(DaemonCrashed)
    else None
  }

  /** The four status codes are pairwise distinct, so a code names one state. */
  lemma StatusCodesDistinct(s: DaemonStatus, t: DaemonStatus)
    ensures StatusCode(s) == StatusCode(t) ==> s == t
    ensures StatusFromCode(StatusCode(s)) == Some(s)
  {
  }

  class Handle {
    const name: string
    var disposed: bool
    /** How many times the native handle has been released. */
    var nativeFrees: nat

    /** The native handle is released exactly when the handle is disposed. */
    ghost predicate Valid()
      reads this
    {
      nativeFrees == if disposed then 1 else 0
    }

    constructor (name: string)
      ensures Valid() && this.name == name && !disposed && nativeFrees == 0
    {
      this.name := name;
      disposed := false;
      nativeFrees := 0;
    }

    /** `dispose`: the first call marks the handle disposed and releases the
     *  native handle; every later call changes nothing. */
    method Dispose()
      requires Valid()
      modifies this
      ensures Valid() && disposed && nativeFrees == 1
      ensures old(disposed) ==> nativeFrees == old(nativeFrees)
      ensures !old(disposed) ==> nativeFrees == old(nativeFrees) + 1
    {
      if !disposed {
        disposed := true;
        nativeFrees := nativeFrees + 1;
      }
    }

    /** `finalize` disposes, so a handle disposed earlier is not released again. */
    method Finalize()
      requires Valid()
      modifies this
      ensures Valid() && disposed && nativeFrees == 1
      ensures old(disposed) ==> nativeFrees == old(nativeFrees)
    {
      Dispose();
    }
  }

  /** The constructor `Handle(name)`: `getHandle` reports `ret`; a non-zero value
   *  raises a registration failure carrying that value, zero yields a fresh,
   *  undisposed handle named `name`. */
  method NewHandle(name: string, ret: int) returns (r: Result<Handle, int>)
    ensures r.Err? <==> ret != 0
    ensures r.Err? ==> r.error == ret
    ensures r.Ok? ==> fresh(r.value) && r.value.Valid() && r.value.name == name && !r.value.disposed
  {
    if ret != 0 {
      return Err(ret);
    }
    var h := new Handle(name);
    return Ok(h);
  }
}
