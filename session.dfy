/** The agent's resource lifecycle: two create-once lazy holders, one for the
    HTTP client and one for the browser launch, and a `_disposed` flag that
    makes disposal happen once. A launch either completes or faults; whether
    it succeeds, and whether closing the browser succeeds, are inputs.

    `Lifecycle` is the agent's state as a value, with counters of the
    creations and releases each resource has seen; the `After*` functions
    are what each call does to it, and `MangaKatanaCrawlerAgent` is the
    object whose methods perform those calls on its fields. */
module Session {

  datatype Lifecycle = Lifecycle(
    disposed: bool,
    httpCreated: bool,
    browserCreated: bool,
    browserLaunchOk: bool,
    httpCreations: nat,
    browserCreations: nat,
    httpReleases: nat,
    browserReleases: nat)

  /** A new agent: nothing created, nothing released, not disposed. */
  function Initial(): Lifecycle {
    Lifecycle(false, false, false, false, 0, 0, 0, 0)
  }

  /** What every reachable state satisfies: each resource is created at most
      once and only through its holder, released at most once and only if it
      was created, the browser only after a successful launch, and nothing
      before disposal. */
  predicate Valid(s: Lifecycle) {
    s.httpCreations == (if s.httpCreated then 1 else 0)
    && s.browserCreations == (if s.browserCreated then 1 else 0)
    && s.httpReleases <= s.httpCreations
    && s.browserReleases <= s.browserCreations
    && (s.browserLaunchOk ==> s.browserCreated)
    && (s.browserReleases > 0 ==> s.browserLaunchOk)
    && (s.httpReleases > 0 || s.browserReleases > 0 ==> s.disposed)
  }

  /** `_httpClient.Value`: creates the client on first use only. */
  function AfterHttpClient(s: Lifecycle): (t: Lifecycle)
    ensures t.httpCreated
    ensures t.httpCreations == s.httpCreations + (if s.httpCreated then 0 else 1)
    ensures t == s.(httpCreated := true, httpCreations := t.httpCreations)
  {
    if s.httpCreated then s
    else s.(httpCreated := true, httpCreations := s.httpCreations + 1)
  }

  /** `GetBrowserAsync()`, awaited: starts the launch on first use only, and
      the first launch's outcome is the one every later call sees. */
  function AfterGetBrowser(s: Lifecycle, launchOk: bool): (t: Lifecycle)
    ensures t.browserCreated
    ensures t.browserCreations == s.browserCreations + (if s.browserCreated then 0 else 1)
    ensures t.browserLaunchOk == if s.browserCreated then s.browserLaunchOk else launchOk
    ensures t == s.(browserCreated := true, browserCreations := t.browserCreations,
                    browserLaunchOk := t.browserLaunchOk)
  {
    if s.browserCreated then s
    else s.(browserCreated := true, browserCreations := s.browserCreations + 1, browserLaunchOk := launchOk)
  }

  /** `Dispose(bool disposing)`: nothing when already disposed; otherwise,
      when `disposing`, release the client if it was created and the browser
      if its launch completed successfully; in every case end disposed. */
  function AfterDispose(s: Lifecycle, disposing: bool): (t: Lifecycle)
    ensures s.disposed ==> t == s
    ensures t.disposed
    ensures t.httpReleases
      == s.httpReleases + (if !s.disposed && disposing && s.httpCreated then 1 else 0)
    ensures t.browserReleases
      == s.browserReleases + (if !s.disposed && disposing && s.browserCreated && s.browserLaunchOk then 1 else 0)
    ensures t == s.(disposed := true, httpReleases := t.httpReleases, browserReleases := t.browserReleases)
  {
    if s.disposed then s
    else
      var http := if disposing && s.httpCreated then 1 else 0;
      var browser := if disposing && s.browserCreated && s.browserLaunchOk then 1 else 0;
      s.(disposed := true, httpReleases := s.httpReleases + http, browserReleases := s.browserReleases + browser)
  }

  /** `DisposeAsync()`: nothing when already disposed; otherwise release the
      client if it was created and, if the browser was created, await it,
      close it and release it, where a faulted launch or a failed close is
      caught and leaves the browser unreleased; in every case end
      disposed. */
  function AfterDisposeAsync(s: Lifecycle, closeOk: bool): (t: Lifecycle)
    ensures s.disposed ==> t == s
    ensures t.disposed
    ensures t.httpReleases == s.httpReleases + (if !s.disposed && s.httpCreated then 1 else 0)
    ensures t.browserReleases
      == s.browserReleases + (if !s.disposed && s.browserCreated && s.browserLaunchOk && closeOk then 1 else 0)
    ensures t == s.(disposed := true, httpReleases := t.httpReleases, browserReleases := t.browserReleases)
  {
    if s.disposed then s
    else
      var http := if s.httpCreated then 1 else 0;
      var browser := if s.browserCreated && s.browserLaunchOk && closeOk then 1 else 0;
      s.(disposed := true, httpReleases := s.httpReleases + http, browserReleases := s.browserReleases + browser)
  }

  // ---------------------------------------------------------------------
  // Properties of the calls
  // ---------------------------------------------------------------------

  /** Every call keeps the lifecycle invariant. */
  lemma StepsKeepValid(s: Lifecycle, launchOk: bool, disposing: bool, closeOk: bool)
    requires Valid(s)
    ensures Valid(AfterHttpClient(s))
    ensures Valid(AfterGetBrowser(s, launchOk))
    ensures Valid(AfterDispose(s, disposing))
    ensures Valid(AfterDisposeAsync(s, closeOk))
  {
  }

  /** Holders create once: asking again changes nothing, and a second
      launch outcome is ignored. */
  lemma HoldersCreateOnce(s: Lifecycle, first: bool, second: bool)
    ensures AfterHttpClient(AfterHttpClient(s)) == AfterHttpClient(s)
    ensures AfterGetBrowser(AfterGetBrowser(s, first), second) == AfterGetBrowser(s, first)
  {
  }

  /** A second disposal, by either path, does nothing. */
  lemma DisposalHappensOnce(s: Lifecycle, first: bool, second: bool)
    ensures AfterDispose(AfterDispose(s, first), second) == AfterDispose(s, first)
    ensures AfterDisposeAsync(AfterDispose(s, first), second) == AfterDispose(s, first)
    ensures AfterDispose(AfterDisposeAsync(s, first), second) == AfterDisposeAsync(s, first)
    ensures AfterDisposeAsync(AfterDisposeAsync(s, first), second) == AfterDisposeAsync(s, first)
  {
  }

  /** Disposal never creates: the creation flags, counters and launch
      outcome are what they were. */
  lemma DisposalNeverCreates(s: Lifecycle, disposing: bool, closeOk: bool)
    ensures var t := AfterDispose(s, disposing);
      t.httpCreated == s.httpCreated && t.browserCreated == s.browserCreated
      && t.browserLaunchOk == s.browserLaunchOk
      && t.httpCreations == s.httpCreations && t.browserCreations == s.browserCreations
    ensures var t := AfterDisposeAsync(s, closeOk);
      t.httpCreated == s.httpCreated && t.browserCreated == s.browserCreated
      && t.browserLaunchOk == s.browserLaunchOk
      && t.httpCreations == s.httpCreations && t.browserCreations == s.browserCreations
  {
  }

  /** `Dispose(false)`, the finalizer's path, releases nothing and only sets
      the flag. */
  lemma FinalizerOnlyMarksDisposed(s: Lifecycle)
    ensures AfterDispose(s, false) == s.(disposed := true)
  {
  }

  /** A browser whose launch faulted is never released, by either path. */
  lemma FaultedLaunchIsNotReleased(s: Lifecycle, disposing: bool, closeOk: bool)
    requires !s.browserLaunchOk
    ensures AfterDispose(s, disposing).browserReleases == s.browserReleases
    ensures AfterDisposeAsync(s, closeOk).browserReleases == s.browserReleases
  {
  }

  // ---------------------------------------------------------------------
  // Any sequence of calls
  // ---------------------------------------------------------------------

  /** The calls an agent can receive. `Dispose` is `Dispose()`, that is
      `Dispose(true)`; `DisposeWith` is `Dispose(bool)` called directly. */
  datatype Call =
    | HttpClient
    | GetBrowser(launchOk: bool)
    | Dispose
    | DisposeWith(disposing: bool)
    | DisposeAsync(closeOk: bool)

  function Apply(s: Lifecycle, c: Call): Lifecycle {
    match c
    case HttpClient => AfterHttpClient(s)
    case GetBrowser(launchOk) => AfterGetBrowser(s, launchOk)
    case Dispose => AfterDispose(s, true)
    case DisposeWith(disposing) => AfterDispose(s, disposing)
    case DisposeAsync(closeOk) => AfterDisposeAsync(s, closeOk)
  }

  function Run(s: Lifecycle, calls: seq<Call>): Lifecycle
    decreases |calls|
  {
    if calls == [] then s else Run(Apply(s, calls[0]), calls[1..])
  }

  /** Any sequence of calls keeps the invariant. */
  lemma {:induction false} RunKeepsValid(s: Lifecycle, calls: seq<Call>)
    requires Valid(s)
    ensures Valid(Run(s, calls))
    decreases |calls|
  {
    if calls != [] {
      var c := calls[0];
      match c {
        case GetBrowser(launchOk) => StepsKeepValid(s, launchOk, true, true);
        case DisposeWith(disposing) => StepsKeepValid(s, true, disposing, true);
        case DisposeAsync(closeOk) => StepsKeepValid(s, true, true, closeOk);
        case _ => StepsKeepValid(s, true, true, true);
      }
      RunKeepsValid(Apply(s, c), calls[1..]);
    }
  }

  /** Whatever an agent is asked, from creation on: each resource is created
      at most once and released at most once, only if it was created, and
      the browser only if its launch succeeded. */
  lemma AtMostOneRelease(calls: seq<Call>)
    ensures var t := Run(Initial(), calls);
      t.httpCreations <= 1 && t.browserCreations <= 1
      && t.httpReleases <= t.httpCreations && t.browserReleases <= t.browserCreations
      && (t.browserReleases > 0 ==> t.browserLaunchOk)
  {
    RunKeepsValid(Initial(), calls);
  }

  /** Once disposed, no sequence of calls releases anything more. */
  lemma {:induction false} DisposedReleasesNothingMore(s: Lifecycle, calls: seq<Call>)
    requires s.disposed
    ensures Run(s, calls).disposed
    ensures Run(s, calls).httpReleases == s.httpReleases
    ensures Run(s, calls).browserReleases == s.browserReleases
    decreases |calls|
  {
    if calls != [] {
      DisposedReleasesNothingMore(Apply(s, calls[0]), calls[1..]);
    }
  }

  // ---------------------------------------------------------------------
  // The agent object
  // ---------------------------------------------------------------------

  class MangaKatanaCrawlerAgent {
    var disposed: bool
    /** `_httpClient.IsValueCreated`. */
    var httpCreated: bool
    /** `_browser.IsValueCreated`. */
    var browserCreated: bool
    /** Whether the launch task `_browser.Value` completed successfully. */
    var browserLaunchOk: bool
    ghost var httpCreations: nat
    ghost var browserCreations: nat
    ghost var httpReleases: nat
    ghost var browserReleases: nat

    ghost function State(): Lifecycle
      reads this
    {
      Lifecycle(disposed, httpCreated, browserCreated, browserLaunchOk,
                httpCreations, browserCreations, httpReleases, browserReleases)
    }

    constructor ()
      ensures State() == Initial()
    {
      disposed := false;
      httpCreated := false;
      browserCreated := false;
      browserLaunchOk := false;
      httpCreations := 0;
      browserCreations := 0;
      httpReleases := 0;
      browserReleases := 0;
    }

    /** `_httpClient.Value`. */
    method HttpClient()
      requires Valid(State())
      modifies this
      ensures State() == AfterHttpClient(old(State()))
      ensures Valid(State())
    {
      if !httpCreated {
        httpCreated := true;
        httpCreations := httpCreations + 1;
      }
      StepsKeepValid(old(State()), true, true, true);
    }

    /** `GetBrowserAsync()`, awaited; `launchOk` is the outcome a launch
        started now would have, and the result is whether the browser is
        available. */
    method GetBrowserAsync(launchOk: bool) returns (launched: bool)
      requires Valid(State())
      modifies this
      ensures State() == AfterGetBrowser(old(State()), launchOk)
      ensures launched == browserLaunchOk
      ensures Valid(State())
    {
      if !browserCreated {
        browserCreated := true;
        browserCreations := browserCreations + 1;
        browserLaunchOk := launchOk;
      }
      launched := browserLaunchOk;
      StepsKeepValid(old(State()), launchOk, true, true);
    }

    /** `Dispose()`: `Dispose(true)`. */
    method Dispose()
      requires Valid(State())
      modifies this
      ensures State() == AfterDispose(old(State()), true)
      ensures Valid(State())
    {
      DisposeWith(true);
    }

    /** `Dispose(bool disposing)`. */
    method DisposeWith(disposing: bool)
      requires Valid(State())
      modifies this
      ensures State() == AfterDispose(old(State()), disposing)
      ensures Valid(State())
    {
      StepsKeepValid(State(), true, disposing, true);
      if disposed {
        return;
      }
      if disposing {
        if httpCreated {
          httpReleases := httpReleases + 1;
        }
        if browserCreated {
          if browserLaunchOk {
            browserReleases := browserReleases + 1;
          }
        }
      }
      disposed := true;
    }

    /** `DisposeAsync()`; `closeOk` is whether closing the browser
        succeeds. */
    method DisposeAsync(closeOk: bool)
      requires Valid(State())
      modifies this
      ensures State() == AfterDisposeAsync(old(State()), closeOk)
      ensures Valid(State())
    {
      StepsKeepValid(State(), true, true, closeOk);
      if disposed {
        return;
      }
      if httpCreated {
        httpReleases := httpReleases + 1;
      }
      if browserCreated {
        // Awaiting a faulted launch throws, as does a failed close; both
        // are caught, and the browser is then not released.
        if browserLaunchOk && closeOk {
          browserReleases := browserReleases + 1;
        }
      }
      disposed := true;
    }
  }
}
