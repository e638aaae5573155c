/**
 * The error-handling helpers of the bot: the exception classes and their
 * classifiers, the retry loop with exponential back-off, and the clean-up of
 * a list of resources.
 */
module ErrorHandling {
  import opened Wrappers

  // ---------------------------------------------------------------------------
  // Exception classes

  /**
   * An exception class. The bot's own classes and the built-in ones the
   * classifiers name are constructors. Any other class is `Derived` from its
   * first base `parent` and any further `bases`, since a Python class may
   * have several (`ConnectionResetError` from `ConnectionError`, `ValueError`
   * from `Exception`, a class deriving from both `VoiceConnectionError` and
   * `TimeoutError`). `asyncio.TimeoutError` is the built-in `TimeoutError`.
   */
  datatype ErrorClass =
    | Exception
    | BotError
    | AudioError
    | VoiceConnectionError
    | DownloadError
    | PlexError
    | OSError
    | ConnectionError
    | TimeoutError
    | Derived(name: string, parent: ErrorClass, bases: seq<ErrorClass>)

  /** What `raise None` raises. */
  const TYPE_ERROR: ErrorClass := Derived("TypeError", Exception, [])

  /** `isinstance(error, k)` for an error of class `c`: `k` is `c` or is reached through its bases. */
  predicate IsInstance(c: ErrorClass, k: ErrorClass)
    decreases c
  {
    c == k ||
    match c
    case Exception => false
    case BotError => k == Exception
    case OSError => k == Exception
    case AudioError => k == BotError || k == Exception
    case VoiceConnectionError => k == BotError || k == Exception
    case DownloadError => k == BotError || k == Exception
    case PlexError => k == BotError || k == Exception
    case ConnectionError => k == OSError || k == Exception
    case TimeoutError => k == OSError || k == Exception
    case Derived(_, parent, bases) =>
      IsInstance(parent, k) || exists i :: 0 <= i < |bases| && IsInstance(bases[i], k)
  }

  /** A class whose every class on the way up has exactly one base. */
  predicate SingleBased(c: ErrorClass) {
    match c
    case Derived(_, parent, bases) => bases == [] && SingleBased(parent)
    case _ => true
  }

  /** An instance of a class is an instance of every class that class is an instance of. */
  lemma {:induction false} InstanceTransitive(c: ErrorClass, k: ErrorClass, j: ErrorClass)
    requires IsInstance(c, k) && IsInstance(k, j)
    ensures IsInstance(c, j)
  {
    if c != k {
      match c
      case Derived(_, parent, bases) =>
        if IsInstance(parent, k) {
          InstanceTransitive(parent, k, j);
        } else {
          var i :| 0 <= i < |bases| && IsInstance(bases[i], k);
          InstanceTransitive(bases[i], k, j);
        }
      case _ =>
    }
  }

  /** Every exception is an `Exception`. */
  lemma {:induction false} AllExceptions(c: ErrorClass)
    ensures IsInstance(c, Exception)
  {
    match c
    case Derived(_, parent, _) =>
      AllExceptions(parent);
    case _ =>
  }

  /**
   * The four named bot errors are bot errors, and connection errors and
   * time-outs are `OSError`s, however their subclasses are derived.
   */
  lemma NamedBranches(c: ErrorClass)
    ensures (IsInstance(c, AudioError) || IsInstance(c, VoiceConnectionError) || IsInstance(c, DownloadError)
      || IsInstance(c, PlexError)) ==> IsInstance(c, BotError)
    ensures IsInstance(c, ConnectionError) || IsInstance(c, TimeoutError) ==> IsInstance(c, OSError)
  {
    forall k | k in {AudioError, VoiceConnectionError, DownloadError, PlexError} && IsInstance(c, k)
      ensures IsInstance(c, BotError)
    {
      InstanceTransitive(c, k, BotError);
    }
    forall k | k in {ConnectionError, TimeoutError} && IsInstance(c, k)
      ensures IsInstance(c, OSError)
    {
      InstanceTransitive(c, k, OSError);
    }
  }

  /**
   * With single bases, no class is both a bot error and an `OSError`: the two
   * branches of the hierarchy are disjoint.
   */
  lemma {:induction false} BotErrorsAreNotOSErrors(c: ErrorClass)
    requires SingleBased(c)
    ensures !(IsInstance(c, BotError) && IsInstance(c, OSError))
  {
    match c
    case Derived(_, parent, _) =>
      BotErrorsAreNotOSErrors(parent);
    case _ =>
  }

  /** With single bases, no class is both a connection error and a time-out. */
  lemma {:induction false} ConnectionErrorsAreNotTimeouts(c: ErrorClass)
    requires SingleBased(c)
    ensures !(IsInstance(c, ConnectionError) && IsInstance(c, TimeoutError))
  {
    match c
    case Derived(_, parent, _) =>
      ConnectionErrorsAreNotTimeouts(parent);
    case _ =>
  }

  /** A class with the two bases `VoiceConnectionError` and `TimeoutError`. */
  const VOICE_TIMEOUT: ErrorClass := Derived("VoiceTimeout", VoiceConnectionError, [TimeoutError])

  // ---------------------------------------------------------------------------
  // Classifiers

  /**
   * `is_retryable_error`: an instance of `ConnectionError`, `TimeoutError`,
   * `asyncio.TimeoutError` or `OSError`.
   */
  predicate IsRetryableError(c: ErrorClass) {
    IsInstance(c, ConnectionError) || IsInstance(c, TimeoutError) || IsInstance(c, OSError)
  }

  /**
   * Since connection errors and time-outs are `OSError`s, an error is
   * retryable exactly when it is an `OSError`.
   */
  lemma RetryableIsOSError(c: ErrorClass)
    ensures IsRetryableError(c) <==> IsInstance(c, OSError)
  {
    NamedBranches(c);
  }

  /** With single bases, no bot error is retryable. */
  lemma BotErrorsNotRetryable(c: ErrorClass)
    requires SingleBased(c) && IsInstance(c, BotError)
    ensures !IsRetryableError(c)
  {
    RetryableIsOSError(c);
    BotErrorsAreNotOSErrors(c);
  }

  const AUDIO_SUMMARY := "Audio processing failed. Please try again."
  const VOICE_SUMMARY := "Voice connection failed. Please check your connection and try again."
  const DOWNLOAD_SUMMARY := "Download failed. Please check the URL and try again."
  const PLEX_SUMMARY := "Plex operation failed. Please check your Plex configuration."
  const CONNECTION_SUMMARY := "Connection failed. Please check your internet connection."
  const TIMEOUT_SUMMARY := "Operation timed out. Please try again."
  const GENERIC_SUMMARY := "An unexpected error occurred. Please try again."

  /**
   * `get_error_summary`: the message of the first class in the order Audio,
   * VoiceConnection, Download, Plex, Connection, Timeout that the error is an
   * instance of, or the generic message.
   */
  function GetErrorSummary(c: ErrorClass): (r: string)
    ensures r == AUDIO_SUMMARY <==> IsInstance(c, AudioError)
    ensures r == VOICE_SUMMARY <==> !IsInstance(c, AudioError) && IsInstance(c, VoiceConnectionError)
    ensures r == DOWNLOAD_SUMMARY <==>
      !IsInstance(c, AudioError) && !IsInstance(c, VoiceConnectionError) && IsInstance(c, DownloadError)
    ensures r == PLEX_SUMMARY <==>
      !IsInstance(c, AudioError) && !IsInstance(c, VoiceConnectionError) && !IsInstance(c, DownloadError) &&
      IsInstance(c, PlexError)
    ensures r == CONNECTION_SUMMARY <==>
      !IsInstance(c, AudioError) && !IsInstance(c, VoiceConnectionError) && !IsInstance(c, DownloadError) &&
      !IsInstance(c, PlexError) && IsInstance(c, ConnectionError)
    ensures r == TIMEOUT_SUMMARY <==>
      !IsInstance(c, AudioError) && !IsInstance(c, VoiceConnectionError) && !IsInstance(c, DownloadError) &&
      !IsInstance(c, PlexError) && !IsInstance(c, ConnectionError) && IsInstance(c, TimeoutError)
    ensures r == GENERIC_SUMMARY <==>
      !IsInstance(c, AudioError) && !IsInstance(c, VoiceConnectionError) && !IsInstance(c, DownloadError) &&
      !IsInstance(c, PlexError) && !IsInstance(c, ConnectionError) && !IsInstance(c, TimeoutError)
  {
    if IsInstance(c, AudioError) then AUDIO_SUMMARY
    else if IsInstance(c, VoiceConnectionError) then VOICE_SUMMARY
    else if IsInstance(c, DownloadError) then DOWNLOAD_SUMMARY
    else if IsInstance(c, PlexError) then PLEX_SUMMARY
    else if IsInstance(c, ConnectionError) then CONNECTION_SUMMARY
    else if IsInstance(c, TimeoutError) then TIMEOUT_SUMMARY
    else GENERIC_SUMMARY
  }

  /** A subclass with one base, which the summary does not name, gets its base's summary. */
  lemma SummaryOfDerived(name: string, parent: ErrorClass)
    ensures GetErrorSummary(Derived(name, parent, [])) == GetErrorSummary(parent)
  {
    InstanceOfOneBase(name, parent, AudioError);
    InstanceOfOneBase(name, parent, VoiceConnectionError);
    InstanceOfOneBase(name, parent, DownloadError);
    InstanceOfOneBase(name, parent, PlexError);
    InstanceOfOneBase(name, parent, ConnectionError);
    InstanceOfOneBase(name, parent, TimeoutError);
  }

  /** A subclass with one base is an instance of a built-in class exactly when its base is. */
  lemma InstanceOfOneBase(name: string, parent: ErrorClass, k: ErrorClass)
    requires !k.Derived?
    ensures IsInstance(Derived(name, parent, []), k) == IsInstance(parent, k)
  {
  }

  /**
   * The voice-and-time-out class is both a bot error and an `OSError`, is
   * retryable, and gets the voice message: with several bases the two
   * branches of the hierarchy meet.
   */
  lemma VoiceTimeoutIsBoth()
    ensures IsInstance(VOICE_TIMEOUT, BotError) && IsInstance(VOICE_TIMEOUT, OSError)
    ensures IsRetryableError(VOICE_TIMEOUT) && GetErrorSummary(VOICE_TIMEOUT) == VOICE_SUMMARY
  {
    VoiceTimeoutInstances();
    VoiceTimeoutSummary();
  }

  lemma VoiceTimeoutInstances()
    ensures IsInstance(VOICE_TIMEOUT, BotError) && IsInstance(VOICE_TIMEOUT, OSError)
    ensures IsInstance(VOICE_TIMEOUT, VoiceConnectionError) && !IsInstance(VOICE_TIMEOUT, AudioError)
  {
    var bases := VOICE_TIMEOUT.bases;
    assert IsInstance(VoiceConnectionError, BotError);
    assert bases == [TimeoutError] && IsInstance(bases[0], OSError) && !IsInstance(bases[0], AudioError);
  }

  lemma VoiceTimeoutSummary()
    ensures GetErrorSummary(VOICE_TIMEOUT) == VOICE_SUMMARY
  {
    VoiceTimeoutInstances();
  }

  /**
   * An `OSError` that is neither a connection error, a time-out nor a bot
   * error gets the generic message, although it is retryable; a bot error
   * outside the four named kinds that is not an `OSError` also gets the
   * generic message. With single bases the conditions on the other branch
   * always hold.
   */
  lemma SummaryOfOtherErrors(c: ErrorClass)
    ensures (IsInstance(c, OSError) && !IsInstance(c, BotError) && !IsInstance(c, ConnectionError) &&
      !IsInstance(c, TimeoutError)) ==> GetErrorSummary(c) == GENERIC_SUMMARY && IsRetryableError(c)
    ensures (IsInstance(c, BotError) && !IsInstance(c, OSError) && !IsInstance(c, AudioError) &&
      !IsInstance(c, VoiceConnectionError) && !IsInstance(c, DownloadError) && !IsInstance(c, PlexError)) ==>
      GetErrorSummary(c) == GENERIC_SUMMARY
    ensures (SingleBased(c) && IsInstance(c, OSError) && !IsInstance(c, ConnectionError) &&
      !IsInstance(c, TimeoutError)) ==> GetErrorSummary(c) == GENERIC_SUMMARY && IsRetryableError(c)
    ensures (SingleBased(c) && IsInstance(c, BotError) && !IsInstance(c, AudioError) &&
      !IsInstance(c, VoiceConnectionError) && !IsInstance(c, DownloadError) && !IsInstance(c, PlexError)) ==>
      GetErrorSummary(c) == GENERIC_SUMMARY
  {
    NamedBranches(c);
    if SingleBased(c) {
      BotErrorsAreNotOSErrors(c);
    }
  }

  /**
   * A connection error that is not a bot error gets the connection message,
   * and a time-out that is neither a bot error nor a connection error the
   * time-out message; both are retryable. With single bases those conditions
   * always hold.
   */
  lemma SummaryOfRetryable(c: ErrorClass)
    ensures IsInstance(c, ConnectionError) && !IsInstance(c, BotError) ==>
      GetErrorSummary(c) == CONNECTION_SUMMARY && IsRetryableError(c)
    ensures IsInstance(c, TimeoutError) && !IsInstance(c, BotError) && !IsInstance(c, ConnectionError) ==>
      GetErrorSummary(c) == TIMEOUT_SUMMARY && IsRetryableError(c)
    ensures SingleBased(c) && IsInstance(c, ConnectionError) ==>
      GetErrorSummary(c) == CONNECTION_SUMMARY && IsRetryableError(c)
    ensures SingleBased(c) && IsInstance(c, TimeoutError) ==>
      GetErrorSummary(c) == TIMEOUT_SUMMARY && IsRetryableError(c)
  {
    NamedBranches(c);
    if SingleBased(c) {
      BotErrorsAreNotOSErrors(c);
      ConnectionErrorsAreNotTimeouts(c);
    }
  }

  // ---------------------------------------------------------------------------
  // Retry with exponential back-off

  /** What one call of the wrapped function does: return a value or raise. */
  datatype Outcome<T> = Success(value: T) | Failure(error: ErrorClass)

  /** What the retrying wrapper does: return a value or raise. */
  datatype RetryResult<T> = Returned(value: T) | Raised(error: ErrorClass)

  function Pow(b: nat, k: nat): nat {
    if k == 0 then 1 else b * Pow(b, k - 1)
  }

  /** The first `n` sleeps: the delay, multiplied by the back-off after each sleep. */
  function Delays(delay: nat, backoff: nat, n: nat): (ds: seq<nat>)
    ensures |ds| == n
  {
    if n == 0 then [] else Delays(delay, backoff, n - 1) + [delay * Pow(backoff, n - 1)]
  }

  /** The k-th sleep (counting from zero) lasts `delay * backoff^k`. */
  lemma {:induction false} DelaysAt(delay: nat, backoff: nat, n: nat, k: nat)
    requires k < n
    ensures Delays(delay, backoff, n)[k] == delay * Pow(backoff, k)
  {
    if k < n - 1 {
      DelaysAt(delay, backoff, n - 1, k);
    }
  }

  /** The first attempt in `[i, n)` whose call succeeds. */
  function FirstSuccess<T>(call: nat -> Outcome<T>, i: nat, n: nat): (r: Option<nat>)
    ensures r.Some? ==> i <= r.value < n && call(r.value).Success?
    ensures r.Some? ==> forall j :: i <= j < r.value ==> call(j).Failure?
    ensures r.None? ==> forall j :: i <= j < n ==> call(j).Failure?
    decreases n - i
  {
    if i >= n then None
    else if call(i).Success? then Some(i)
    else FirstSuccess(call, i + 1, n)
  }

  /**
   * What `retry_on_error(max_attempts, delay, backoff)` does to a function
   * whose `k`-th call has outcome `call(k)`: the result, how many calls it
   * made and the sleeps between them. With no attempt at all it raises the
   * `None` it holds, which is a `TypeError`.
   */
  function Retry<T>(call: nat -> Outcome<T>, maxAttempts: int, delay: nat, backoff: nat)
    : (RetryResult<T>, nat, seq<nat>)
  {
    if maxAttempts <= 0 then (Raised(TYPE_ERROR), 0, [])
    else
      match FirstSuccess(call, 0, maxAttempts)
      case Some(k) => (Returned(call(k).value), k + 1, Delays(delay, backoff, k))
      case None => (Raised(call(maxAttempts - 1).error), maxAttempts, Delays(delay, backoff, maxAttempts - 1))
  }

  /**
   * The retry promises: at most `max_attempts` calls, and none at all (a
   * `TypeError`) when that is not positive; the first success is
   * returned unchanged after the failures before it; with every attempt
   * failing the last attempt's exception is raised; one sleep between
   * consecutive attempts and none after the last, the k-th lasting
   * `delay * backoff^k` (counting from zero).
   */
  lemma RetryProperties<T>(call: nat -> Outcome<T>, maxAttempts: int, delay: nat, backoff: nat)
    ensures var (result, calls, sleeps) := Retry(call, maxAttempts, delay, backoff);
      calls <= if maxAttempts < 0 then 0 else maxAttempts
    ensures var (result, calls, sleeps) := Retry(call, maxAttempts, delay, backoff);
      maxAttempts <= 0 ==> result == Raised(TYPE_ERROR) && calls == 0 && sleeps == []
    ensures var (result, calls, sleeps) := Retry(call, maxAttempts, delay, backoff);
      maxAttempts >= 1 ==> (calls >= 1 && |sleeps| == calls - 1 &&
        forall k :: 0 <= k < |sleeps| ==> sleeps[k] == delay * Pow(backoff, k))
    ensures var (result, calls, sleeps) := Retry(call, maxAttempts, delay, backoff);
      maxAttempts >= 1 ==>
        (result.Returned? <==> exists k :: 0 <= k < maxAttempts && call(k).Success?)
    ensures var (result, calls, sleeps) := Retry(call, maxAttempts, delay, backoff);
      result.Returned? ==> (call(calls - 1) == Success(result.value) &&
        forall j :: 0 <= j < calls - 1 ==> call(j).Failure?)
    ensures var (result, calls, sleeps) := Retry(call, maxAttempts, delay, backoff);
      maxAttempts >= 1 && result.Raised? ==> (calls == maxAttempts &&
        result.error == call(maxAttempts - 1).error && forall j :: 0 <= j < maxAttempts ==> call(j).Failure?)
  {
    var (result, calls, sleeps) := Retry(call, maxAttempts, delay, backoff);
    if maxAttempts >= 1 {
      forall k | 0 <= k < |sleeps| ensures sleeps[k] == delay * Pow(backoff, k) {
        DelaysAt(delay, backoff, calls - 1, k);
      }
    }
  }

  /**
   * `retry_on_error`'s wrapper: call until a call succeeds or the attempts
   * run out, sleeping `current_delay` between attempts and multiplying it
   * by the back-off after each sleep.
   */
  method RetryOnError<T>(call: nat -> Outcome<T>, maxAttempts: int, delay: nat, backoff: nat)
    returns (result: RetryResult<T>, calls: nat, sleeps: seq<nat>)
    ensures (result, calls, sleeps) == Retry(call, maxAttempts, delay, backoff)
  {
    var lastException: Option<ErrorClass> := None;
    var currentDelay := delay;
    calls := 0;
    sleeps := [];
    var attempt := 0;
    while attempt < maxAttempts
      invariant 0 <= attempt && (maxAttempts >= 1 ==> attempt < maxAttempts) && (maxAttempts <= 0 ==> attempt == 0)
      invariant calls == attempt
      invariant forall j :: 0 <= j < attempt ==> call(j).Failure?
      invariant sleeps == Delays(delay, backoff, attempt)
      invariant currentDelay == delay * Pow(backoff, attempt)
      invariant lastException == if attempt == 0 then None else Some(call(attempt - 1).error)
      decreases maxAttempts - attempt
    {
      calls := calls + 1;
      match call(attempt)
      case Success(v) =>
        result := Returned(v);
        assert FirstSuccess(call, 0, maxAttempts) == Some(attempt);
        return;
      case Failure(e) =>
        lastException := Some(e);
        if attempt < maxAttempts - 1 {
          sleeps := sleeps + [currentDelay];
          currentDelay := currentDelay * backoff;
        } else {
          result := Raised(e);
          assert FirstSuccess(call, 0, maxAttempts) == None;
          return;
        }
      attempt := attempt + 1;
    }
    // Reached only when the range of attempts is empty: `raise None`.
    result := Raised(TYPE_ERROR);
  }

  // ---------------------------------------------------------------------------
  // Resource clean-up

  /** The clean-up methods `cleanup_resources` looks for. */
  datatype Hook = Close | Cleanup | Disconnect

  /**
   * A managed resource: its identity, which of the clean-up methods it has,
   * and whether calling the one chosen raises.
   */
  datatype Resource = Resource(id: nat, hasClose: bool, hasCleanup: bool, hasDisconnect: bool, raises: bool)

  /** The method called: `close` if present, else `cleanup`, else `disconnect`, else none. */
  function ChosenHook(r: Resource): (h: Option<Hook>)
    ensures h == Some(Close) <==> r.hasClose
    ensures h == Some(Cleanup) <==> !r.hasClose && r.hasCleanup
    ensures h == Some(Disconnect) <==> !r.hasClose && !r.hasCleanup && r.hasDisconnect
    ensures h == None <==> !r.hasClose && !r.hasCleanup && !r.hasDisconnect
  {
    if r.hasClose then Some(Close)
    else if r.hasCleanup then Some(Cleanup)
    else if r.hasDisconnect then Some(Disconnect)
    else None
  }

  /** One clean-up attempt: the resource, the method called, and whether a warning was logged. */
  datatype Attempt = Attempt(resource: Resource, hook: Option<Hook>, warned: bool)

  function AttemptOn(r: Resource): Attempt {
    Attempt(r, ChosenHook(r), ChosenHook(r).Some? && r.raises)
  }

  /** The attempts made on a list of resources, in order. */
  function CleanupLog(resources: seq<Resource>): (log: seq<Attempt>)
    ensures |log| == |resources|
  {
    if resources == [] then [] else [AttemptOn(resources[0])] + CleanupLog(resources[1..])
  }

  /**
   * Clean-up visits every resource in order, whatever earlier ones did, and
   * warns exactly for the resources whose chosen method raised.
   */
  lemma {:induction false} CleanupLogProperties(resources: seq<Resource>)
    ensures forall i :: 0 <= i < |resources| ==> CleanupLog(resources)[i].resource == resources[i]
    ensures forall i :: 0 <= i < |resources| ==> CleanupLog(resources)[i].hook == ChosenHook(resources[i])
    ensures forall i :: 0 <= i < |resources| ==>
      (CleanupLog(resources)[i].warned <==> ChosenHook(resources[i]).Some? && resources[i].raises)
  {
    if resources != [] {
      CleanupLogProperties(resources[1..]);
    }
  }

  /** Cleaning two lists in turn is cleaning them joined. */
  lemma {:induction false} CleanupLogAppend(a: seq<Resource>, b: seq<Resource>)
    ensures CleanupLog(a + b) == CleanupLog(a) + CleanupLog(b)
  {
    if a == [] {
      assert a + b == b;
    } else {
      var r, t := a[0], a[1..];
      assert a == [r] + t;
      assert a + b == [r] + (t + b);
      CleanupLogAppend(t, b);
      CleanupLogCons(r, t + b);
      CleanupLogCons(r, t);
    }
  }

  lemma CleanupLogCons(r: Resource, t: seq<Resource>)
    ensures CleanupLog([r] + t) == [AttemptOn(r)] + CleanupLog(t)
  {
    assert ([r] + t)[0] == r && ([r] + t)[1..] == t;
  }

  /** `cleanup_resources`: try each resource's clean-up method, logging a failure and going on. */
  method CleanupResources(resources: seq<Resource>) returns (log: seq<Attempt>)
    ensures log == CleanupLog(resources)
  {
    log := [];
    for i := 0 to |resources|
      invariant log == CleanupLog(resources[..i])
    {
      var r := resources[i];
      var hook := ChosenHook(r);
      var warned := false;
      if hook.Some? && r.raises {
        warned := true;
      }
      CleanupLogAppend(resources[..i], [r]);
      assert resources[..i + 1] == resources[..i] + [r];
      log := log + [Attempt(r, hook, warned)];
    }
    assert resources[..|resources|] == resources;
  }

  /** `ResourceManager`: a context manager holding resources to clean up on exit. */
  class ResourceManager {
    var resources: seq<Resource>

    constructor()
      ensures resources == []
    {
      resources := [];
    }

    /** `add`: append the resource and hand it back. */
    method Add(r: Resource) returns (same: Resource)
      modifies this
      ensures resources == old(resources) + [r]
      ensures same == r
    {
      resources := resources + [r];
      same := r;
    }

    /** `__enter__`: the manager itself. */
    method Enter() returns (m: ResourceManager)
      ensures m == this
    {
      m := this;
    }

    /** `__exit__`: clean up every resource held, in order, then forget them all. */
    method Exit() returns (log: seq<Attempt>)
      modifies this
      ensures log == CleanupLog(old(resources))
      ensures resources == []
    {
      log := CleanupResources(resources);
      resources := [];
    }
  }
}
